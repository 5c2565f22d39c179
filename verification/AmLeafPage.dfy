/** A leaf page of the B+ tree as amlayer lays it out: a header, key slots growing up
    from byte AM_SL, recId cells growing down from the page end.  A slot is a key and
    the offset of the first cell of its recId list; a cell is a recId and the offset of
    the next cell; offset 0 ends a list.  Deleted cells are chained from freeListPtr.

    cells[o] is the 6-byte cell that begins at byte o.  All offsets in use differ from
    the page end by multiples of 6, so distinct cells never overlap, and the header
    invariant keyPtr <= recIdPtr keeps slots and cells apart. */
module AmLeafPage {
  import opened Sequences
  import opened AmEntries

  const PF_PAGE_SIZE := 1020
  const AM_SI := 4
  const AM_SS := 2
  const AM_SL := 24
  const CELL := AM_SI + AM_SS
  const AM_NULL := 0
  const AM_NULL_PAGE := -1
  /** Slots that fit above the header with the smallest slot, a 1-byte key and a short:
      (PF_PAGE_SIZE - AM_SL) / (1 + AM_SS). */
  const MAX_SLOTS := 332

  datatype Slot = Slot(key: Key, head: int)
  datatype Cell = Cell(recId: RecId, next: int)
  datatype LeafHeader = LeafHeader(nextLeafPage: int, recIdPtr: int, keyPtr: int, freeListPtr: int,
                                   numinfreeList: int, attrLength: int, numKeys: int, maxKeys: int)
  datatype Leaf = Leaf(hdr: LeafHeader, slots: seq<Slot>, cells: seq<Cell>)

  function RecSize(attrLength: int): int { attrLength + AM_SS }

  /** The header fields that editing the entries of a leaf leaves alone. */
  ghost predicate SameLeaf(h: LeafHeader, g: LeafHeader) {
    h.nextLeafPage == g.nextLeafPage && h.attrLength == g.attrLength && h.maxKeys == g.maxKeys
  }

  /** Which cells hold which list: one list of cell offsets per slot, and the free list. */
  datatype Layout = Layout(lists: seq<seq<int>>, free: seq<int>)

  function OffsetAt(s: seq<int>, i: nat): int {
    if i < |s| then s[i] else AM_NULL
  }

  /** Following next pointers from head visits exactly the offsets in s, then ends. */
  ghost predicate IsChain(cells: seq<Cell>, head: int, s: seq<int>) {
    && head == OffsetAt(s, 0)
    && (forall i | 0 <= i < |s| :: 0 < s[i] < |cells|)
    && (forall i | 0 <= i < |s| :: cells[s[i]].next == OffsetAt(s, i + 1))
  }

  /** The n cells at the page end, once each. */
  ghost function LastCells(n: nat): multiset<int> {
    if n == 0 then multiset{} else LastCells(n - 1) + multiset{PF_PAGE_SIZE - CELL * n}
  }

  /** Bytes taken by n slots. */
  ghost function SlotBytes(n: nat, recSize: int): int {
    if n == 0 then 0 else SlotBytes(n - 1, recSize) + recSize
  }

  ghost function CellCount(y: Layout): nat {
    |Cat(y.lists)| + |y.free|
  }

  /** Slot i heads the chain lists[i]. */
  ghost predicate ListsOk(slots: seq<Slot>, cells: seq<Cell>, lists: seq<seq<int>>) {
    && |lists| <= |slots|
    && forall i | 0 <= i < |lists| :: IsChain(cells, slots[i].head, lists[i])
  }

  /** The header's pointers and counts agree with layout y, and every cell from recIdPtr
      to the page end is on exactly one list of y, once. */
  ghost predicate Counted(h: LeafHeader, y: Layout) {
    && 1 <= h.attrLength <= 255
    && |y.lists| <= MAX_SLOTS
    && h.keyPtr == AM_SL + SlotBytes(|y.lists|, RecSize(h.attrLength))
    && h.recIdPtr == PF_PAGE_SIZE - CELL * CellCount(y)
    && h.keyPtr <= h.recIdPtr
    && h.numinfreeList == |y.free|
    && multiset(Cat(y.lists)) + multiset(y.free) == LastCells(CellCount(y))
  }

  /** The layout y describes page lf.  (It may hold one slot more than numKeys says:
      InsertToLeafNotFound opens a slot before its caller counts it.) */
  ghost predicate Laid(lf: Leaf, y: Layout) {
    && |lf.slots| == MAX_SLOTS && |lf.cells| == PF_PAGE_SIZE
    && Counted(lf.hdr, y)
    && ListsOk(lf.slots, lf.cells, y.lists)
    && IsChain(lf.cells, lf.hdr.freeListPtr, y.free)
  }

  ghost function RecIds(cells: seq<Cell>, s: seq<int>): (rs: seq<RecId>)
    requires forall i | 0 <= i < |s| :: 0 < s[i] < |cells|
    ensures |rs| == |s| && forall i | 0 <= i < |s| :: rs[i] == cells[s[i]].recId
  {
    seq(|s|, i requires 0 <= i < |s| => cells[s[i]].recId)
  }

  ghost function EntryIn(slots: seq<Slot>, cells: seq<Cell>, lists: seq<seq<int>>, i: nat): Entry
    requires ListsOk(slots, cells, lists) && i < |lists|
  {
    Entry(slots[i].key, RecIds(cells, lists[i]))
  }

  ghost function EntriesIn(slots: seq<Slot>, cells: seq<Cell>, lists: seq<seq<int>>): (es: seq<Entry>)
    requires ListsOk(slots, cells, lists)
    ensures |es| == |lists| && forall i | 0 <= i < |es| :: es[i] == EntryIn(slots, cells, lists, i)
  {
    seq(|lists|, i requires 0 <= i < |lists| => EntryIn(slots, cells, lists, i))
  }

  ghost function EntriesAt(lf: Leaf, y: Layout): (es: seq<Entry>)
    requires Laid(lf, y)
    ensures |es| == |y.lists|
  {
    EntriesIn(lf.slots, lf.cells, y.lists)
  }

  ghost predicate LeafAt(lf: Leaf, y: Layout) {
    && Laid(lf, y)
    && lf.hdr.numKeys == |y.lists|
    && NoEmptyList(EntriesAt(lf, y))
  }

  // ---- the layout is determined by the page ----

  ghost function ChainOf(cells: seq<Cell>, p: int, fuel: nat): seq<int>
    decreases fuel
  {
    if fuel == 0 || !(0 < p < |cells|) then [] else [p] + ChainOf(cells, cells[p].next, fuel - 1)
  }

  ghost function LayoutOf(lf: Leaf): Layout {
    Layout(
      if 0 <= lf.hdr.numKeys <= |lf.slots|
      then seq(lf.hdr.numKeys, i requires 0 <= i < lf.hdr.numKeys => ChainOf(lf.cells, lf.slots[i].head, |lf.cells|))
      else [],
      ChainOf(lf.cells, lf.hdr.freeListPtr, |lf.cells|))
  }

  ghost predicate LeafOk(lf: Leaf) {
    LeafAt(lf, LayoutOf(lf))
  }

  ghost function Entries(lf: Leaf): seq<Entry>
    requires LeafOk(lf)
  {
    EntriesAt(lf, LayoutOf(lf))
  }

  lemma ChainTail(cells: seq<Cell>, p: int, s: seq<int>)
    requires IsChain(cells, p, s) && s != []
    ensures p == s[0] && IsChain(cells, cells[p].next, s[1..])
  {
    var t := s[1..];
    forall i | 0 <= i < |t| ensures cells[t[i]].next == OffsetAt(t, i + 1) {
      assert t[i] == s[i + 1];
    }
  }

  lemma {:induction false} ChainOfIsChain(cells: seq<Cell>, p: int, s: seq<int>, fuel: nat)
    requires IsChain(cells, p, s) && |s| <= fuel
    ensures ChainOf(cells, p, fuel) == s
    decreases fuel
  {
    if s != [] {
      ChainTail(cells, p, s);
      ChainOfIsChain(cells, cells[p].next, s[1..], fuel - 1);
    }
  }

  // ---- counting cells ----

  lemma {:induction false} LastCellsFacts(n: nat, o: int)
    ensures LastCells(n)[o] <= 1
    ensures o in LastCells(n) ==> PF_PAGE_SIZE - CELL * n <= o <= PF_PAGE_SIZE - CELL
  {
    if n > 0 {
      LastCellsFacts(n - 1, o);
    }
  }

  lemma {:induction false} SlotBytesMonotone(m: nat, n: nat, recSize: int)
    requires m <= n && recSize >= 0
    ensures 0 <= SlotBytes(m, recSize) <= SlotBytes(n, recSize)
    decreases n
  {
    if m < n {
      SlotBytesMonotone(m, n - 1, recSize);
    } else if m > 0 {
      SlotBytesMonotone(m - 1, n - 1, recSize);
    }
  }

  lemma CatUpdate(lists: seq<seq<int>>, i: nat, s: seq<int>)
    requires i < |lists|
    ensures multiset(Cat(lists[i := s])) + multiset(lists[i]) == multiset(Cat(lists)) + multiset(s)
  {
    CatSplit(lists, i);
    CatSplit(lists[i := s], i);
    assert lists[i := s][..i] == lists[..i] && lists[i := s][i + 1..] == lists[i + 1..];
  }

  lemma CatInsertEmpty(a: seq<seq<int>>, b: seq<seq<int>>)
    ensures Cat(a + [[]] + b) == Cat(a + b)
  {
    CatMiddle(a, [], b);
    CatConcat(a, b);
    assert Cat(a) + [] == Cat(a);
  }

  /** Offsets in a laid-out page: in range, and in no two places. */
  lemma OffsetFacts(lf: Leaf, y: Layout, i: nat, a: nat)
    requires Laid(lf, y) && i < |y.lists| && a < |y.lists[i]|
    ensures lf.hdr.recIdPtr <= y.lists[i][a] <= PF_PAGE_SIZE - CELL
    ensures y.lists[i][a] !in y.free
    ensures forall j | 0 <= j < |y.lists| && j != i :: y.lists[i][a] !in y.lists[j]
    ensures forall b | 0 <= b < |y.lists[i]| && b != a :: y.lists[i][b] != y.lists[i][a]
  {
    var o := y.lists[i][a];
    LastCellsFacts(CellCount(y), o);
    InCat(y.lists, i, o);
    assert multiset(Cat(y.lists))[o] + multiset(y.free)[o] == LastCells(CellCount(y))[o];
    OnceInCat(y.lists, i, a);
  }

  lemma FreeFacts(lf: Leaf, y: Layout, a: nat)
    requires Laid(lf, y) && a < |y.free|
    ensures lf.hdr.recIdPtr <= y.free[a] <= PF_PAGE_SIZE - CELL
    ensures forall j | 0 <= j < |y.lists| :: y.free[a] !in y.lists[j]
    ensures forall b | 0 <= b < |y.free| && b != a :: y.free[b] != y.free[a]
  {
    var o := y.free[a];
    LastCellsFacts(CellCount(y), o);
    assert multiset(y.free)[o] >= 1;
    assert multiset(Cat(y.lists))[o] + multiset(y.free)[o] == LastCells(CellCount(y))[o];
    NotInLists(y.lists, o);
    FreeDistinct(y.free, a);
  }

  lemma OnceInCat(lists: seq<seq<int>>, i: nat, a: nat)
    requires i < |lists| && a < |lists[i]| && multiset(Cat(lists))[lists[i][a]] <= 1
    ensures forall j | 0 <= j < |lists| && j != i :: lists[i][a] !in lists[j]
    ensures forall b | 0 <= b < |lists[i]| && b != a :: lists[i][b] != lists[i][a]
  {
    var o := lists[i][a];
    var before, after := lists[..i], lists[i + 1..];
    CatSplit(lists, i);
    assert multiset(lists[i])[o] >= 1;
    NotInLists(before, o);
    NotInLists(after, o);
    forall j | 0 <= j < |lists| && j != i ensures o !in lists[j] {
      if j < i { assert before[j] == lists[j]; } else { assert after[j - i - 1] == lists[j]; }
    }
    FreeDistinct(lists[i], a);
  }

  lemma NotInLists(lists: seq<seq<int>>, o: int)
    requires multiset(Cat(lists))[o] == 0
    ensures forall j | 0 <= j < |lists| :: o !in lists[j]
  {
    forall j | 0 <= j < |lists| ensures o !in lists[j] {
      if o in lists[j] {
        InCat(lists, j, o);
      }
    }
  }

  lemma FreeDistinct(s: seq<int>, a: nat)
    requires a < |s| && multiset(s)[s[a]] <= 1
    ensures forall b | 0 <= b < |s| && b != a :: s[b] != s[a]
  {
    forall b | 0 <= b < |s| && b != a ensures s[b] != s[a] {
      if s[b] == s[a] {
        CountTwo(s, a, b);
      }
    }
  }

  lemma InCat(lists: seq<seq<int>>, j: nat, o: int)
    requires j < |lists| && o in lists[j]
    ensures o in Cat(lists) && o in multiset(Cat(lists))
  {
    CatSplit(lists, j);
    assert o in lists[j];
    assert o in Cat(lists[..j]) + lists[j];
  }

  lemma CountTwo(s: seq<int>, a: nat, b: nat)
    requires a < |s| && b < |s| && a != b && s[a] == s[b]
    ensures multiset(s)[s[a]] >= 2
  {
    var i, j := if a < b then a else b, if a < b then b else a;
    assert s == s[..i] + [s[i]] + s[i + 1..j] + [s[j]] + s[j + 1..];
  }

  lemma ListShorter(lists: seq<seq<int>>, i: nat)
    requires i < |lists|
    ensures |lists[i]| <= |Cat(lists)|
  {
    CatSplit(lists, i);
  }

  lemma {:induction false} SlotBytesAtLeast(n: nat, recSize: int)
    requires recSize >= 1 + AM_SS
    ensures SlotBytes(n, recSize) >= (1 + AM_SS) * n
  {
    if n > 0 {
      SlotBytesAtLeast(n - 1, recSize);
    }
  }

  lemma {:induction false} SlotBytesIs(n: nat, recSize: int)
    ensures SlotBytes(n, recSize) == n * recSize
  {
    if n > 0 {
      SlotBytesIs(n - 1, recSize);
      assert n * recSize == (n - 1) * recSize + recSize;
    }
  }

  lemma CellsFit(lf: Leaf, y: Layout)
    requires Laid(lf, y)
    ensures CELL * CellCount(y) <= PF_PAGE_SIZE - AM_SL && AM_SL <= lf.hdr.keyPtr
  {
    SlotBytesMonotone(0, |y.lists|, RecSize(lf.hdr.attrLength));
  }

  lemma ListFound(lf: Leaf, y: Layout, i: nat)
    requires LeafAt(lf, y) && i < |y.lists|
    ensures ChainOf(lf.cells, lf.slots[i].head, |lf.cells|) == y.lists[i]
  {
    CellsFit(lf, y);
    ListShorter(y.lists, i);
    ChainOfIsChain(lf.cells, lf.slots[i].head, y.lists[i], |lf.cells|);
  }

  lemma FreeFound(lf: Leaf, y: Layout)
    requires LeafAt(lf, y)
    ensures ChainOf(lf.cells, lf.hdr.freeListPtr, |lf.cells|) == y.free
  {
    var cells, p, s := lf.cells, lf.hdr.freeListPtr, y.free;
    CellsFit(lf, y);
    ChainOfIsChain(cells, p, s, |cells|);
  }

  /** The layout of a page is unique, so LayoutOf finds it. */
  lemma LayoutUnique(lf: Leaf, y: Layout)
    requires LeafAt(lf, y)
    ensures LayoutOf(lf) == y
  {
    FreeFound(lf, y);
    var ls := LayoutOf(lf).lists;
    forall i | 0 <= i < |y.lists| ensures ls[i] == y.lists[i] {
      ListFound(lf, y, i);
    }
    assert ls == y.lists;
  }

  // ---- space accounting ----

  /** Bytes a set of entries needs on a page: a slot for each key, a cell for each recId. */
  ghost function Weight(es: seq<Entry>, recSize: int): int {
    if es == [] then 0 else Weight(es[..|es| - 1], recSize) + recSize + CELL * |es[|es| - 1].recIds|
  }

  /** Bytes not holding an entry: the gap in the middle and the free cells. */
  function FreeBytes(h: LeafHeader): int {
    h.recIdPtr - h.keyPtr + h.numinfreeList * CELL
  }

  lemma {:induction false} WeightConcat(a: seq<Entry>, b: seq<Entry>, recSize: int)
    ensures Weight(a + b, recSize) == Weight(a, recSize) + Weight(b, recSize)
  {
    if b == [] {
      assert a + b == a;
    } else {
      assert (a + b)[..|a + b| - 1] == a + b[..|b| - 1];
      WeightConcat(a, b[..|b| - 1], recSize);
    }
  }

  lemma {:induction false} WeightAtLeast(es: seq<Entry>, recSize: int)
    requires NoEmptyList(es) && recSize >= 0
    ensures Weight(es, recSize) >= SlotBytes(|es|, recSize + CELL)
  {
    if es != [] {
      var n := |es| - 1;
      WeightAtLeast(es[..n], recSize);
      assert es[n].recIds != [];
    }
  }

  lemma {:induction false} WeightOfLists(es: seq<Entry>, lists: seq<seq<int>>, recSize: int)
    requires |es| == |lists| && forall i | 0 <= i < |es| :: |es[i].recIds| == |lists[i]|
    ensures Weight(es, recSize) == SlotBytes(|es|, recSize) + CELL * |Cat(lists)|
  {
    if es != [] {
      var n := |es| - 1;
      WeightOfLists(es[..n], lists[..n], recSize);
      CatSplit(lists, n);
      assert lists[n + 1..] == [];
    }
  }

  /** On every well-formed leaf the space that is not free is exactly the entries' weight. */
  lemma SpaceAccounting(lf: Leaf, y: Layout)
    requires Laid(lf, y)
    ensures FreeBytes(lf.hdr) + Weight(EntriesAt(lf, y), RecSize(lf.hdr.attrLength)) == PF_PAGE_SIZE - AM_SL
  {
    WeightOfLists(EntriesAt(lf, y), y.lists, RecSize(lf.hdr.attrLength));
  }
}
