/** The elementary edits of a leaf page, on page values: take a cell and put it at the
    head of a list, open a slot, take a cell off a list, close a slot.  Each keeps the
    page laid out and changes one entry. */
module AmLeafSteps {
  import opened Sequences
  import opened AmEntries
  import opened AmLeafPage

  // ---- chains ----

  /** A cell that is not on s may be overwritten without disturbing s. */
  lemma ChainFrame(cells: seq<Cell>, head: int, s: seq<int>, o: int, c: Cell)
    requires IsChain(cells, head, s) && 0 <= o < |cells| && o !in s
    ensures IsChain(cells[o := c], head, s)
    ensures RecIds(cells[o := c], s) == RecIds(cells, s)
  {
  }

  /** A cell that is not on s becomes the new head of s. */
  lemma ChainPush(cells: seq<Cell>, head: int, s: seq<int>, o: int, r: RecId)
    requires IsChain(cells, head, s) && 0 < o < |cells| && o !in s
    ensures IsChain(cells[o := Cell(r, head)], o, [o] + s)
    ensures RecIds(cells[o := Cell(r, head)], [o] + s) == [r] + RecIds(cells, s)
  {
    ChainFrame(cells, head, s, o, Cell(r, head));
    var t := [o] + s;
    forall i | 0 <= i < |t| ensures 0 < t[i] < |cells| && cells[o := Cell(r, head)][t[i]].next == OffsetAt(t, i + 1) {
      if i > 0 { assert t[i] == s[i - 1]; }
    }
  }

  ghost predicate Distinct(s: seq<int>) {
    forall i, j | 0 <= i < j < |s| :: s[i] != s[j]
  }

  /** cells after the predecessor of position p in s, if s has one, is given p's next. */
  ghost function Bypass(cells: seq<Cell>, s: seq<int>, p: nat): seq<Cell>
    requires p < |s| && forall i | 0 <= i < |s| :: 0 < s[i] < |cells|
  {
    if p == 0 then cells else cells[s[p - 1] := cells[s[p - 1]].(next := OffsetAt(s, p + 1))]
  }

  lemma ChainBypass(cells: seq<Cell>, head: int, s: seq<int>, p: nat)
    requires IsChain(cells, head, s) && Distinct(s) && p < |s|
    ensures var t := RemoveAt(s, p);
            && IsChain(Bypass(cells, s, p), if p == 0 then OffsetAt(s, 1) else head, t)
            && RecIds(Bypass(cells, s, p), t) == RemoveAt(RecIds(cells, s), p)
  {
    var t, cs := RemoveAt(s, p), Bypass(cells, s, p);
    RemoveAtIndex(s, p);
    forall j | 0 <= j < |t|
      ensures 0 < t[j] < |cs| && cs[t[j]].recId == cells[t[j]].recId
      ensures cs[t[j]].next == OffsetAt(t, j + 1)
    {
      BypassNext(cells, head, s, p, j);
    }
    RemoveAtIndex(RecIds(cells, s), p);
    assert |RecIds(cs, t)| == |RemoveAt(RecIds(cells, s), p)|;
    assert RecIds(cs, t) == RemoveAt(RecIds(cells, s), p);
  }

  lemma BypassNext(cells: seq<Cell>, head: int, s: seq<int>, p: nat, j: nat)
    requires IsChain(cells, head, s) && Distinct(s) && p < |s| && j < |s| - 1
    ensures var t, cs := RemoveAt(s, p), Bypass(cells, s, p);
            && 0 < t[j] < |cs| && cs[t[j]].next == OffsetAt(t, j + 1) && cs[t[j]].recId == cells[t[j]].recId
  {
    hide RemoveAt, OffsetAt, Distinct;
    RemoveAtIndex(s, p);
    OffsetBypass(s, p, j);
    var k := if j < p then j else j + 1;
    if p > 0 && k != p - 1 {
      DistinctAt(s, k, p - 1);
    }
  }

  lemma OffsetBypass(s: seq<int>, p: nat, j: nat)
    requires p < |s|
    ensures OffsetAt(RemoveAt(s, p), j + 1) == OffsetAt(s, if j + 1 < p then j + 1 else j + 2)
  {
    RemoveAtIndex(s, p);
  }

  lemma DistinctAt(s: seq<int>, i: nat, j: nat)
    requires Distinct(s) && i < |s| && j < |s| && i != j
    ensures s[i] != s[j]
  {
  }

  // ---- slots and lists together ----

  /** Changing cell o, on no list but perhaps i, and slot i leaves the other entries alone. */
  lemma EntriesUpdate(slots: seq<Slot>, cells: seq<Cell>, lists: seq<seq<int>>, i: nat, head: int, cs: seq<Cell>,
          s: seq<int>)
    requires ListsOk(slots, cells, lists) && i < |lists|
    requires IsChain(cs, head, s)
    requires forall j | 0 <= j < |lists| && j != i ::
               IsChain(cs, slots[j].head, lists[j]) && RecIds(cs, lists[j]) == RecIds(cells, lists[j])
    ensures var ss, ls := slots[i := slots[i].(head := head)], lists[i := s];
            && ListsOk(ss, cs, ls)
            && EntriesIn(ss, cs, ls) == EntriesIn(slots, cells, lists)[i := Entry(slots[i].key, RecIds(cs, s))]
  {
    var ss, ls := slots[i := slots[i].(head := head)], lists[i := s];
    forall j | 0 <= j < |ls| ensures IsChain(cs, ss[j].head, ls[j]) {
    }
    var es := EntriesIn(slots, cells, lists)[i := Entry(slots[i].key, RecIds(cs, s))];
    forall j | 0 <= j < |ls| ensures EntryIn(ss, cs, ls, j) == es[j] {
      assert EntryIn(slots, cells, lists, j) == EntriesIn(slots, cells, lists)[j];
    }
    assert EntriesIn(ss, cs, ls) == es;
  }

  ghost function PushLists(lists: seq<seq<int>>, i: nat, o: int): seq<seq<int>>
    requires i < |lists|
  {
    lists[i := [o] + lists[i]]
  }

  lemma Cancel(a: multiset<int>, b: multiset<int>, c: multiset<int>, d: multiset<int>)
    requires a + c == b + (d + c)
    ensures a == b + d && |a| == |b| + |d|
  {
    forall x ensures a[x] == (b + d)[x] {
      assert (a + c)[x] == (b + (d + c))[x];
    }
  }

  lemma PushCat(lists: seq<seq<int>>, i: nat, o: int)
    requires i < |lists|
    ensures multiset(Cat(PushLists(lists, i, o))) == multiset(Cat(lists)) + multiset{o}
    ensures |Cat(PushLists(lists, i, o))| == |Cat(lists)| + 1
  {
    CatUpdate(lists, i, [o] + lists[i]);
    assert multiset([o] + lists[i]) == multiset{o} + multiset(lists[i]);
    Cancel(multiset(Cat(PushLists(lists, i, o))), multiset(Cat(lists)), multiset(lists[i]), multiset{o});
  }

  lemma PushEntry(slots: seq<Slot>, cells: seq<Cell>, lists: seq<seq<int>>, i: nat, o: int, r: RecId)
    requires ListsOk(slots, cells, lists) && i < |lists| && 0 < o < |cells|
    requires forall j | 0 <= j < |lists| :: o !in lists[j]
    ensures var ss, cs, ls := slots[i := slots[i].(head := o)], cells[o := Cell(r, slots[i].head)],
            PushLists(lists, i, o);
            && ListsOk(ss, cs, ls)
            && EntriesIn(ss, cs, ls) == InsertAt(EntriesIn(slots, cells, lists), i, true, slots[i].key, r)
  {
    var c := Cell(r, slots[i].head);
    ChainPush(cells, slots[i].head, lists[i], o, r);
    forall j | 0 <= j < |lists| && j != i
      ensures IsChain(cells[o := c], slots[j].head, lists[j])
      ensures RecIds(cells[o := c], lists[j]) == RecIds(cells, lists[j])
    {
      ChainFrame(cells, slots[j].head, lists[j], o, c);
    }
    EntriesUpdate(slots, cells, lists, i, o, cells[o := c], [o] + lists[i]);
  }

  /** The page after cell o, holding r, was put at the head of list i. */
  ghost function Pushed(lf: Leaf, i: nat, o: int, r: RecId, h: LeafHeader): Leaf
    requires i < |lf.slots| && 0 <= o < |lf.cells|
  {
    Leaf(h, lf.slots[i := lf.slots[i].(head := o)], lf.cells[o := Cell(r, lf.slots[i].head)])
  }

  lemma FreeListEmpty(lf: Leaf, y: Layout)
    requires Laid(lf, y)
    ensures lf.hdr.freeListPtr == AM_NULL <==> y.free == []
    ensures lf.hdr.numinfreeList == 0 <==> y.free == []
  {
  }

  lemma GapCellUnused(lf: Leaf, y: Layout)
    requires Laid(lf, y)
    ensures forall j | 0 <= j < |y.lists| :: lf.hdr.recIdPtr - CELL !in y.lists[j]
  {
    var o := lf.hdr.recIdPtr - CELL;
    LastCellsFacts(CellCount(y), o);
    assert (multiset(Cat(y.lists)) + multiset(y.free))[o] == 0;
    NotInLists(y.lists, o);
  }

  /** The offset AM_InsertToLeafFound takes its cell from, and the header after that. */
  ghost function TakenCell(lf: Leaf): int {
    if lf.hdr.freeListPtr == AM_NULL then lf.hdr.recIdPtr - CELL else lf.hdr.freeListPtr
  }

  ghost function TakenHeader(lf: Leaf): LeafHeader
    requires 0 <= TakenCell(lf) < |lf.cells|
  {
    if lf.hdr.freeListPtr == AM_NULL then lf.hdr.(recIdPtr := lf.hdr.recIdPtr - CELL)
    else lf.hdr.(freeListPtr := lf.cells[lf.hdr.freeListPtr].next, numinfreeList := lf.hdr.numinfreeList - 1)
  }

  ghost predicate HasCell(h: LeafHeader) {
    h.freeListPtr != AM_NULL || h.recIdPtr - h.keyPtr >= CELL
  }

  lemma CountFromGap(h: LeafHeader, y: Layout, i: nat)
    requires Counted(h, y) && i < |y.lists| && y.free == [] && h.recIdPtr - h.keyPtr >= CELL
    ensures var o := h.recIdPtr - CELL; Counted(h.(recIdPtr := o), Layout(PushLists(y.lists, i, o), y.free))
  {
    var o := h.recIdPtr - CELL;
    var z := Layout(PushLists(y.lists, i, o), y.free);
    PushCat(y.lists, i, o);
    assert CellCount(z) == CellCount(y) + 1;
  }

  lemma PushFromGap(lf: Leaf, y: Layout, i: nat, r: RecId) returns (z: Layout)
    requires Laid(lf, y) && i < |y.lists| && lf.hdr.freeListPtr == AM_NULL
    requires lf.hdr.recIdPtr - lf.hdr.keyPtr >= CELL
    ensures 0 < TakenCell(lf) < |lf.cells|
    ensures var t := Pushed(lf, i, TakenCell(lf), r, TakenHeader(lf));
            && Laid(t, z)
            && EntriesAt(t, z) == InsertAt(EntriesAt(lf, y), i, true, lf.slots[i].key, r)
  {
    CellsFit(lf, y);
    FreeListEmpty(lf, y);
    var o := lf.hdr.recIdPtr - CELL;
    z := Layout(PushLists(y.lists, i, o), y.free);
    GapCellUnused(lf, y);
    PushEntry(lf.slots, lf.cells, y.lists, i, o, r);
    CountFromGap(lf.hdr, y, i);
  }

  lemma CountFromFree(h: LeafHeader, y: Layout, i: nat, nx: int)
    requires Counted(h, y) && i < |y.lists| && y.free != []
    ensures Counted(h.(numinfreeList := h.numinfreeList - 1, freeListPtr := nx),
                    Layout(PushLists(y.lists, i, y.free[0]), y.free[1..]))
  {
    var o := y.free[0];
    var z := Layout(PushLists(y.lists, i, o), y.free[1..]);
    PushCat(y.lists, i, o);
    assert y.free == [o] + z.free;
    assert multiset(y.free) == multiset{o} + multiset(z.free);
    var a, b := multiset(Cat(y.lists)), multiset(z.free);
    assert (a + multiset{o}) + b == a + (multiset{o} + b);
    assert CellCount(z) == CellCount(y);
  }

  lemma PushFromFree(lf: Leaf, y: Layout, i: nat, r: RecId) returns (z: Layout)
    requires Laid(lf, y) && i < |y.lists| && lf.hdr.freeListPtr != AM_NULL
    ensures 0 < TakenCell(lf) < |lf.cells|
    ensures var t := Pushed(lf, i, TakenCell(lf), r, TakenHeader(lf));
            && Laid(t, z)
            && EntriesAt(t, z) == InsertAt(EntriesAt(lf, y), i, true, lf.slots[i].key, r)
  {
    FreeListEmpty(lf, y);
    FreeFacts(lf, y, 0);
    var o := lf.hdr.freeListPtr;
    z := Layout(PushLists(y.lists, i, o), y.free[1..]);
    PushEntry(lf.slots, lf.cells, y.lists, i, o, r);
    CountFromFree(lf.hdr, y, i, lf.cells[o].next);
    ChainTail(lf.cells, o, y.free);
    ChainFrame(lf.cells, lf.cells[o].next, y.free[1..], o, Cell(r, lf.slots[i].head));
  }

  /** Taking a cell for recId r, from the free list if it has one and else from the gap,
      makes r the first recId of entry i. */
  lemma PushTaken(lf: Leaf, y: Layout, i: nat, r: RecId) returns (z: Layout)
    requires Laid(lf, y) && i < |y.lists| && HasCell(lf.hdr)
    ensures 0 < TakenCell(lf) < |lf.cells|
    ensures var t := Pushed(lf, i, TakenCell(lf), r, TakenHeader(lf));
            && Laid(t, z)
            && EntriesAt(t, z) == InsertAt(EntriesAt(lf, y), i, true, lf.slots[i].key, r)
  {
    if lf.hdr.freeListPtr == AM_NULL {
      z := PushFromGap(lf, y, i, r);
    } else {
      z := PushFromFree(lf, y, i, r);
    }
  }

  // ---- opening a slot ----

  /** Slots i.. move up by one and slot i becomes (k, empty list). */
  ghost predicate SlotOpened(a: seq<Slot>, b: seq<Slot>, n: nat, i: nat, k: Key)
    requires i <= n < |a| && |b| == |a|
  {
    && (forall j | 0 <= j < i :: b[j] == a[j])
    && b[i] == Slot(k, AM_NULL)
    && (forall j | i < j <= n :: b[j] == a[j - 1])
  }

  ghost function OpenLists(lists: seq<seq<int>>, i: nat): seq<seq<int>>
    requires i <= |lists|
  {
    lists[..i] + [[]] + lists[i..]
  }

  lemma OpenEntry(a: seq<Slot>, b: seq<Slot>, cells: seq<Cell>, lists: seq<seq<int>>, i: nat, k: Key)
    requires ListsOk(a, cells, lists) && i <= |lists| < |a| && |b| == |a|
    requires SlotOpened(a, b, |lists|, i, k)
    ensures var ls := OpenLists(lists, i);
            && ListsOk(b, cells, ls)
            && var es := EntriesIn(a, cells, lists);
               EntriesIn(b, cells, ls) == es[..i] + [Entry(k, [])] + es[i..]
  {
    var ls := OpenLists(lists, i);
    var fs := EntriesIn(a, cells, lists);
    var es := fs[..i] + [Entry(k, [])] + fs[i..];
    forall j | 0 <= j < |ls|
      ensures IsChain(cells, b[j].head, ls[j]) && Entry(b[j].key, RecIds(cells, ls[j])) == es[j]
    {
      if j != i {
        var m := if j < i then j else j - 1;
        assert ls[j] == lists[m] && b[j] == a[m] && fs[m] == EntryIn(a, cells, lists, m);
      }
    }
    assert EntriesIn(b, cells, ls) == es;
  }

  lemma CountOpen(h: LeafHeader, y: Layout, i: nat)
    requires Counted(h, y) && i <= |y.lists| < MAX_SLOTS
    requires h.recIdPtr - h.keyPtr >= RecSize(h.attrLength)
    ensures Counted(h.(keyPtr := h.keyPtr + RecSize(h.attrLength)), Layout(OpenLists(y.lists, i), y.free))
  {
    var a, b := y.lists[..i], y.lists[i..];
    assert a + b == y.lists;
    CatInsertEmpty(a, b);
  }

  lemma OpenSlot(lf: Leaf, y: Layout, t: Leaf, i: nat, k: Key) returns (z: Layout)
    requires Laid(lf, y) && i <= |y.lists| < MAX_SLOTS
    requires |t.slots| == |lf.slots| && SlotOpened(lf.slots, t.slots, |y.lists|, i, k)
    requires t.cells == lf.cells
    requires t.hdr == lf.hdr.(keyPtr := lf.hdr.keyPtr + RecSize(lf.hdr.attrLength))
    requires lf.hdr.recIdPtr - lf.hdr.keyPtr >= RecSize(lf.hdr.attrLength)
    ensures z == Layout(OpenLists(y.lists, i), y.free)
    ensures Laid(t, z)
    ensures EntriesAt(t, z) == EntriesAt(lf, y)[..i] + [Entry(k, [])] + EntriesAt(lf, y)[i..]
  {
    z := Layout(OpenLists(y.lists, i), y.free);
    CountOpen(lf.hdr, y, i);
    OpenEntry(lf.slots, t.slots, lf.cells, y.lists, i, k);
  }

  // ---- taking a cell off a list ----

  /** The cell at position p of list i leaves it for the head of the free list.  Its
      predecessor, a cell or the slot, is given its next. */
  ghost function Unlinked(lf: Leaf, s: seq<int>, i: nat, p: nat): Leaf
    requires i < |lf.slots| && p < |s| && forall j | 0 <= j < |s| :: 0 < s[j] < |lf.cells|
  {
    Leaf(lf.hdr.(numinfreeList := lf.hdr.numinfreeList + 1, freeListPtr := s[p]),
         if p == 0 then lf.slots[i := lf.slots[i].(head := OffsetAt(s, 1))] else lf.slots,
         Bypass(lf.cells, s, p)[s[p] := lf.cells[s[p]].(next := lf.hdr.freeListPtr)])
  }

  ghost function UnlinkLayout(y: Layout, i: nat, p: nat): Layout
    requires i < |y.lists| && p < |y.lists[i]|
  {
    Layout(y.lists[i := RemoveAt(y.lists[i], p)], [y.lists[i][p]] + y.free)
  }

  lemma ListDistinct(lf: Leaf, y: Layout, i: nat)
    requires Laid(lf, y) && i < |y.lists|
    ensures Distinct(y.lists[i])
  {
    forall a, b | 0 <= a < b < |y.lists[i]| ensures y.lists[i][a] != y.lists[i][b] {
      OffsetFacts(lf, y, i, a);
    }
  }

  lemma UnlinkOwnList(lf: Leaf, y: Layout, i: nat, p: nat)
    requires Laid(lf, y) && i < |y.lists| && p < |y.lists[i]|
    ensures var t, s := Unlinked(lf, y.lists[i], i, p), RemoveAt(y.lists[i], p);
            && IsChain(t.cells, t.slots[i].head, s)
            && RecIds(t.cells, s) == RemoveAt(RecIds(lf.cells, y.lists[i]), p)
  {
    var s := y.lists[i];
    ListDistinct(lf, y, i);
    ChainBypass(lf.cells, lf.slots[i].head, s, p);
    var head := if p == 0 then OffsetAt(s, 1) else lf.slots[i].head;
    ChainFrame(Bypass(lf.cells, s, p), head, RemoveAt(s, p), s[p], lf.cells[s[p]].(next := lf.hdr.freeListPtr));
  }

  /** A chain that shares no cell with s is not disturbed by the unlinking. */
  lemma UnlinkOtherChain(lf: Leaf, s: seq<int>, i: nat, p: nat, head: int, u: seq<int>)
    requires i < |lf.slots| && p < |s| && forall j | 0 <= j < |s| :: 0 < s[j] < |lf.cells|
    requires IsChain(lf.cells, head, u) && s[p] !in u && (p > 0 ==> s[p - 1] !in u)
    ensures var t := Unlinked(lf, s, i, p);
            IsChain(t.cells, head, u) && RecIds(t.cells, u) == RecIds(lf.cells, u)
  {
    if p > 0 {
      ChainFrame(lf.cells, head, u, s[p - 1], lf.cells[s[p - 1]].(next := OffsetAt(s, p + 1)));
    }
    ChainFrame(Bypass(lf.cells, s, p), head, u, s[p], lf.cells[s[p]].(next := lf.hdr.freeListPtr));
  }

  lemma UnlinkFree(lf: Leaf, y: Layout, i: nat, p: nat)
    requires Laid(lf, y) && i < |y.lists| && p < |y.lists[i]|
    ensures var t := Unlinked(lf, y.lists[i], i, p); IsChain(t.cells, t.hdr.freeListPtr, [y.lists[i][p]] + y.free)
  {
    var s := y.lists[i];
    OffsetFacts(lf, y, i, p);
    if p > 0 {
      OffsetFacts(lf, y, i, p - 1);
      ChainFrame(lf.cells, lf.hdr.freeListPtr, y.free, s[p - 1], lf.cells[s[p - 1]].(next := OffsetAt(s, p + 1)));
    }
    ChainPush(Bypass(lf.cells, s, p), lf.hdr.freeListPtr, y.free, s[p], lf.cells[s[p]].recId);
    if p > 0 { OffsetFacts(lf, y, i, p); assert s[p - 1] != s[p]; }
  }

  lemma RemoveAtMultiset(s: seq<int>, p: nat)
    requires p < |s|
    ensures multiset(s) == multiset(RemoveAt(s, p)) + multiset{s[p]}
  {
    assert s == s[..p] + [s[p]] + s[p + 1..];
  }

  lemma UnlinkCat(y: Layout, i: nat, p: nat)
    requires i < |y.lists| && p < |y.lists[i]|
    ensures var z := UnlinkLayout(y, i, p);
            && multiset(Cat(z.lists)) + multiset(z.free) == multiset(Cat(y.lists)) + multiset(y.free)
            && CellCount(z) == CellCount(y)
  {
    var z, s := UnlinkLayout(y, i, p), y.lists[i];
    var o := multiset{s[p]};
    CatUpdate(y.lists, i, RemoveAt(s, p));
    RemoveAtMultiset(s, p);
    var a, b, c := multiset(Cat(z.lists)), multiset(Cat(y.lists)), multiset(RemoveAt(s, p));
    assert b + c == a + (o + c);
    Cancel(b, a, c, o);
    assert multiset(z.free) == o + multiset(y.free);
    assert a + (o + multiset(y.free)) == (a + o) + multiset(y.free);
  }

  lemma UnlinkLists(lf: Leaf, y: Layout, i: nat, p: nat)
    requires Laid(lf, y) && i < |y.lists| && p < |y.lists[i]|
    ensures var t, z := Unlinked(lf, y.lists[i], i, p), UnlinkLayout(y, i, p);
            && ListsOk(t.slots, t.cells, z.lists)
            && EntriesIn(t.slots, t.cells, z.lists)
               == EntriesAt(lf, y)[i := Entry(lf.slots[i].key, RemoveAt(EntriesAt(lf, y)[i].recIds, p))]
  {
    var s, t := y.lists[i], Unlinked(lf, y.lists[i], i, p);
    UnlinkOwnList(lf, y, i, p);
    OffsetFacts(lf, y, i, p);
    if p > 0 { OffsetFacts(lf, y, i, p - 1); }
    forall j | 0 <= j < |y.lists| && j != i
      ensures IsChain(t.cells, lf.slots[j].head, y.lists[j])
      ensures RecIds(t.cells, y.lists[j]) == RecIds(lf.cells, y.lists[j])
    {
      UnlinkOtherChain(lf, s, i, p, lf.slots[j].head, y.lists[j]);
    }
    EntriesUpdate(lf.slots, lf.cells, y.lists, i, t.slots[i].head, t.cells, RemoveAt(s, p));
    assert t.slots == lf.slots[i := lf.slots[i].(head := t.slots[i].head)];
  }

  /** Unlinking takes the recId at position p off entry i and loses no cell. */
  lemma UnlinkCell(lf: Leaf, y: Layout, i: nat, p: nat)
    requires Laid(lf, y) && i < |y.lists| && p < |y.lists[i]|
    ensures var t, z := Unlinked(lf, y.lists[i], i, p), UnlinkLayout(y, i, p);
            && Laid(t, z)
            && EntriesAt(t, z) == EntriesAt(lf, y)[i := Entry(lf.slots[i].key, RemoveAt(EntriesAt(lf, y)[i].recIds, p))]
  {
    UnlinkCat(y, i, p);
    UnlinkFree(lf, y, i, p);
    UnlinkLists(lf, y, i, p);
  }

  // ---- closing a slot ----

  /** Slots above i move down by one; the last live slot's bytes stay where they were. */
  ghost predicate SlotClosed(a: seq<Slot>, b: seq<Slot>, n: nat, i: nat)
    requires i < n <= |a| && |b| == |a|
  {
    && (forall j | 0 <= j < i :: b[j] == a[j])
    && (forall j | i <= j < n - 1 :: b[j] == a[j + 1])
    && (forall j | n - 1 <= j < |a| :: b[j] == a[j])
  }

  lemma CloseEntry(a: seq<Slot>, b: seq<Slot>, cells: seq<Cell>, lists: seq<seq<int>>, i: nat)
    requires ListsOk(a, cells, lists) && i < |lists| && |b| == |a|
    requires SlotClosed(a, b, |lists|, i)
    ensures var ls := RemoveAt(lists, i);
            && ListsOk(b, cells, ls)
            && EntriesIn(b, cells, ls) == RemoveAt(EntriesIn(a, cells, lists), i)
  {
    var ls := RemoveAt(lists, i);
    var fs := EntriesIn(a, cells, lists);
    var es := RemoveAt(fs, i);
    forall j | 0 <= j < |ls|
      ensures IsChain(cells, b[j].head, ls[j]) && Entry(b[j].key, RecIds(cells, ls[j])) == es[j]
    {
      var m := if j < i then j else j + 1;
      assert ls[j] == lists[m] && b[j] == a[m] && fs[m] == EntryIn(a, cells, lists, m);
    }
    assert EntriesIn(b, cells, ls) == es;
  }

  lemma CloseCat(lists: seq<seq<int>>, i: nat)
    requires i < |lists| && lists[i] == []
    ensures Cat(RemoveAt(lists, i)) == Cat(lists)
  {
    CatSplit(lists, i);
    CatConcat(lists[..i], lists[i + 1..]);
    assert Cat(lists[..i]) + lists[i] == Cat(lists[..i]);
  }

  lemma CountClose(h: LeafHeader, y: Layout, i: nat, n: int)
    requires Counted(h, y) && i < |y.lists| && y.lists[i] == []
    ensures Counted(h.(keyPtr := h.keyPtr - RecSize(h.attrLength), numKeys := n), Layout(RemoveAt(y.lists, i), y.free))
  {
    var z := Layout(RemoveAt(y.lists, i), y.free);
    CloseCat(y.lists, i);
    assert CellCount(z) == CellCount(y);
    var n, rs := |y.lists|, RecSize(h.attrLength);
    assert SlotBytes(n, rs) == SlotBytes(n - 1, rs) + rs;
    RemoveAtIndex(y.lists, i);
  }

  lemma CloseSlot(lf: Leaf, y: Layout, t: Leaf, i: nat)
    requires Laid(lf, y) && i < |y.lists| && y.lists[i] == []
    requires |t.slots| == |lf.slots| && SlotClosed(lf.slots, t.slots, |y.lists|, i)
    requires t.cells == lf.cells
    requires t.hdr == lf.hdr.(keyPtr := lf.hdr.keyPtr - RecSize(lf.hdr.attrLength), numKeys := t.hdr.numKeys)
    ensures var z := Layout(RemoveAt(y.lists, i), y.free);
            && Laid(t, z)
            && EntriesAt(t, z) == RemoveAt(EntriesAt(lf, y), i)
  {
    CloseEntry(lf.slots, t.slots, lf.cells, y.lists, i);
    CountClose(lf.hdr, y, i, t.hdr.numKeys);
  }

  // ---- deleting one recId of one entry ----

  ghost predicate FirstAt(rs: seq<RecId>, r: RecId, p: nat) {
    p < |rs| && rs[p] == r && forall q | 0 <= q < p :: rs[q] != r
  }

  lemma {:induction false} RemoveFirstAt(rs: seq<RecId>, r: RecId, p: nat)
    requires FirstAt(rs, r, p)
    ensures RemoveFirst(rs, r) == RemoveAt(rs, p)
  {
    if p > 0 {
      RemoveFirstAt(rs[1..], r, p - 1);
      assert RemoveAt(rs, p) == [rs[0]] + RemoveAt(rs[1..], p - 1);
    }
  }

  /** t is lf after the cell at position p of list i was freed, and slot i closed if that
      left its list empty; stated by where lists and keys are. */
  ghost predicate Deleted(lf: Leaf, t: Leaf, i: nat, p: nat) {
    var ls, ms := LayoutOf(lf).lists, LayoutOf(t).lists;
    && LeafOk(lf) && LeafOk(t) && SameLeaf(lf.hdr, t.hdr) && lf.hdr.recIdPtr == t.hdr.recIdPtr
    && i < |ls| && p < |ls[i]|
    && if |ls[i]| > 1 then
         && ms == ls[i := RemoveAt(ls[i], p)]
         && (forall j | 0 <= j < MAX_SLOTS :: t.slots[j].key == lf.slots[j].key)
       else
         && ms == RemoveAt(ls, i)
         && (forall j | 0 <= j < MAX_SLOTS ::
               t.slots[j].key == lf.slots[if i <= j < |ls| - 1 then j + 1 else j].key)
  }

  lemma DeleteAtKeeps(es: seq<Entry>, i: nat, r: RecId, p: nat)
    requires i < |es| && |es[i].recIds| > 1 && FirstAt(es[i].recIds, r, p)
    ensures DeleteAt(es, i, r) == es[i := Entry(es[i].key, RemoveAt(es[i].recIds, p))]
    ensures RemoveAt(es[i].recIds, p) != []
  {
    RemoveFirstAt(es[i].recIds, r, p);
    RemoveAtIndex(es[i].recIds, p);
  }

  lemma UnlinkKeepsOk(lf: Leaf, i: nat, p: nat)
    requires LeafOk(lf) && i < lf.hdr.numKeys && p < |Entries(lf)[i].recIds| && |Entries(lf)[i].recIds| > 1
    ensures var y := LayoutOf(lf);
            var t := Unlinked(lf, y.lists[i], i, p);
            && LeafOk(t) && LayoutOf(t) == UnlinkLayout(y, i, p)
            && Entries(t) == Entries(lf)[i := Entry(Entries(lf)[i].key, RemoveAt(Entries(lf)[i].recIds, p))]
  {
    var y := LayoutOf(lf);
    var t := Unlinked(lf, y.lists[i], i, p);
    UnlinkCell(lf, y, i, p);
    var es := Entries(lf);
    RemoveAtIndex(es[i].recIds, p);
    var z := UnlinkLayout(y, i, p);
    assert NoEmptyList(EntriesAt(t, z));
    LayoutUnique(t, z);
  }

  lemma DeleteKeepsList(lf: Leaf, i: nat, p: nat, r: RecId)
    requires LeafOk(lf) && i < lf.hdr.numKeys
    requires |Entries(lf)[i].recIds| > 1 && FirstAt(Entries(lf)[i].recIds, r, p)
    ensures var t := Unlinked(lf, LayoutOf(lf).lists[i], i, p);
            Deleted(lf, t, i, p) && Entries(t) == DeleteAt(Entries(lf), i, r)
  {
    UnlinkKeepsOk(lf, i, p);
    DeleteAtKeeps(Entries(lf), i, r, p);
  }

  /** The page u, with list i emptied, and the page t with slot i closed. */
  ghost predicate Closed(u: Leaf, t: Leaf, i: nat) {
    && |t.slots| == |u.slots| && i < u.hdr.numKeys <= |u.slots|
    && SlotClosed(u.slots, t.slots, u.hdr.numKeys, i) && t.cells == u.cells
    && t.hdr == u.hdr.(keyPtr := u.hdr.keyPtr - RecSize(u.hdr.attrLength), numKeys := u.hdr.numKeys - 1)
  }

  lemma UnlinkOnly(lf: Leaf, i: nat) returns (z: Layout)
    requires LeafOk(lf) && i < lf.hdr.numKeys && |LayoutOf(lf).lists[i]| == 1
    ensures var y, u := LayoutOf(lf), Unlinked(lf, LayoutOf(lf).lists[i], i, 0);
            && z.lists == y.lists[i := []]
            && RemoveAt(z.lists, i) == RemoveAt(y.lists, i)
            && Laid(u, z)
            && RemoveAt(EntriesAt(u, z), i) == RemoveAt(Entries(lf), i)
  {
    var y, u := LayoutOf(lf), Unlinked(lf, LayoutOf(lf).lists[i], i, 0);
    UnlinkCell(lf, y, i, 0);
    z := UnlinkLayout(y, i, 0);
    assert RemoveAt(y.lists[i], 0) == [];
    DropUpdated(Entries(lf), i, EntriesAt(u, z)[i]);
    DropUpdated(y.lists, i, []);
  }

  lemma RemoveKeepsNoEmpty(es: seq<Entry>, i: nat)
    requires NoEmptyList(es) && i < |es|
    ensures NoEmptyList(RemoveAt(es, i)) && |RemoveAt(es, i)| == |es| - 1
  {
    RemoveAtIndex(es, i);
  }

  lemma CloseOnly(lf: Leaf, i: nat, t: Leaf)
    requires LeafOk(lf) && i < lf.hdr.numKeys && |LayoutOf(lf).lists[i]| == 1
    requires Closed(Unlinked(lf, LayoutOf(lf).lists[i], i, 0), t, i)
    ensures LeafOk(t) && Entries(t) == RemoveAt(Entries(lf), i)
    ensures LayoutOf(t).lists == RemoveAt(LayoutOf(lf).lists, i)
  {
    var z := UnlinkOnly(lf, i);
    CloseSlot(Unlinked(lf, LayoutOf(lf).lists[i], i, 0), z, t, i);
    var w := Layout(RemoveAt(z.lists, i), z.free);
    RemoveKeepsNoEmpty(Entries(lf), i);
    LayoutUnique(t, w);
  }

  lemma DeleteDropsKey(lf: Leaf, i: nat, r: RecId, t: Leaf)
    requires LeafOk(lf) && i < lf.hdr.numKeys && Entries(lf)[i].recIds == [r]
    requires Closed(Unlinked(lf, LayoutOf(lf).lists[i], i, 0), t, i)
    ensures Deleted(lf, t, i, 0) && Entries(t) == DeleteAt(Entries(lf), i, r)
  {
    CloseOnly(lf, i, t);
    DeleteAtDrops(Entries(lf), i, r);
  }

  /** What AM_DeleteEntry does to a leaf once it has found the recId. */
  lemma DeleteFound(lf: Leaf, i: nat, p: nat, r: RecId, u: Leaf, t: Leaf)
    requires LeafOk(lf) && i < lf.hdr.numKeys
    requires FirstAt(Entries(lf)[i].recIds, r, p)
    requires u == Unlinked(lf, LayoutOf(lf).lists[i], i, p)
    requires if u.slots[i].head == AM_NULL then Closed(u, t, i) else t == u
    ensures Deleted(lf, t, i, p) && Entries(t) == DeleteAt(Entries(lf), i, r)
  {
    var s := LayoutOf(lf).lists[i];
    assert u.slots[i].head == AM_NULL <==> |s| == 1;
    if |s| == 1 {
      assert Entries(lf)[i].recIds == [r];
      DeleteDropsKey(lf, i, r, t);
    } else {
      DeleteKeepsList(lf, i, p, r);
    }
  }

  lemma DropUpdated<T>(s: seq<T>, i: nat, x: T)
    requires i < |s|
    ensures RemoveAt(s[i := x], i) == RemoveAt(s, i)
  {
  }

  lemma DeleteAtDrops(es: seq<Entry>, i: nat, r: RecId)
    requires i < |es| && es[i].recIds == [r]
    ensures DeleteAt(es, i, r) == RemoveAt(es, i)
  {
  }
}
