/** A leaf page while it is fixed in a buffer: the in-place editing of aminsert.c and the
    leaf part of AM_DeleteEntry.  Value() is the page's content; each method is specified
    by what it does to the entries the page holds.  The header a C function copies out,
    changes and copies back is the field hdr. */
module AmLeafBuf {
  import opened Sequences
  import opened AmEntries
  import opened AmLeafPage
  import opened AmLeafSteps
  import opened AmCompact

  /** Bytes AM_InsertintoLeaf wants for one more entry; a new key that finds free cells
      in the page must leave a byte over (aminsert.c:56,64). */
  function Need(h: LeafHeader, found: bool): int {
    if found then CELL
    else if h.freeListPtr == AM_NULL then RecSize(h.attrLength) + CELL
    else RecSize(h.attrLength) + CELL + 1
  }

  /** An empty leaf whose cells, all free, leave no room for a slot: here inserting calls
      AM_Compact on an empty key range, which does not set keyPtr (aminsert.c:69,212). */
  predicate Stranded(h: LeafHeader) {
    h.numKeys == 0 && h.recIdPtr - h.keyPtr <= RecSize(h.attrLength)
  }

  class LeafBuf {
    var hdr: LeafHeader
    const slots: array<Slot>
    const cells: array<Cell>

    ghost predicate Shape() {
      slots.Length == MAX_SLOTS && cells.Length == PF_PAGE_SIZE
    }

    function Value(): Leaf
      reads this, slots, cells
    {
      Leaf(hdr, slots[..], cells[..])
    }

    /** A temporary page: what it holds at first is arbitrary. */
    constructor Temporary(h: LeafHeader)
      ensures Shape() && fresh(slots) && fresh(cells) && hdr == h
    {
      hdr := h;
      slots := new Slot[MAX_SLOTS];
      cells := new Cell[PF_PAGE_SIZE];
    }

    /** A page brought into the buffer. */
    constructor Load(lf: Leaf)
      requires |lf.slots| == MAX_SLOTS && |lf.cells| == PF_PAGE_SIZE
      ensures Shape() && fresh(slots) && fresh(cells)
      ensures Value() == lf
    {
      hdr := lf.hdr;
      slots := new Slot[MAX_SLOTS](i requires 0 <= i < MAX_SLOTS => lf.slots[i]);
      cells := new Cell[PF_PAGE_SIZE](i requires 0 <= i < PF_PAGE_SIZE => lf.cells[i]);
      new;
      assert slots[..] == lf.slots && cells[..] == lf.cells;
    }

    /** AM_InsertToLeafFound: recId becomes the first of the list at slot index, in a free
        cell if there is one and else in the cell below recIdPtr. */
    method InsertToLeafFound(recId: RecId, index: int)
      requires Shape() && 1 <= index <= slots.Length && 0 <= TakenCell(Value()) < cells.Length
      modifies this`hdr, slots, cells
      ensures Value() == Pushed(old(Value()), index - 1, TakenCell(old(Value())), recId, TakenHeader(old(Value())))
    {
      var tempPtr;
      if hdr.freeListPtr == AM_NULL {
        hdr := hdr.(recIdPtr := hdr.recIdPtr - AM_SI - AM_SS);
        tempPtr := hdr.recIdPtr;
      } else {
        tempPtr := hdr.freeListPtr;
        hdr := hdr.(numinfreeList := hdr.numinfreeList - 1, freeListPtr := cells[tempPtr].next);
      }
      LinkCell(recId, index, tempPtr);
    }

    /** The cell at tempPtr gets recId and becomes the head of the list at slot index. */
    method LinkCell(recId: RecId, index: int, tempPtr: int)
      requires Shape() && 1 <= index <= slots.Length && 0 <= tempPtr < cells.Length
      modifies slots, cells
      ensures Value() == Pushed(old(Value()), index - 1, tempPtr, recId, hdr)
    {
      var oldhead := slots[index - 1].head;
      slots[index - 1] := slots[index - 1].(head := tempPtr);
      cells[tempPtr] := cells[tempPtr].(recId := recId);
      cells[tempPtr] := cells[tempPtr].(next := oldhead);
    }

    /** The loop that pushes the keys from index on one slot to the right. */
    method ShiftRight(index: int)
      requires Shape() && 1 <= index <= hdr.numKeys + 1 <= MAX_SLOTS
      modifies slots
      ensures forall j | 0 <= j < index - 1 :: slots[j] == old(slots[j])
      ensures forall j | index <= j <= hdr.numKeys :: slots[j] == old(slots[..])[j - 1]
    {
      var i := hdr.numKeys;
      while i >= index
        invariant index - 1 <= i <= hdr.numKeys
        invariant forall j | 0 <= j <= i :: slots[j] == old(slots[j])
        invariant forall j | i < j <= hdr.numKeys :: slots[j] == old(slots[..])[j - 1]
      {
        slots[i] := slots[i - 1];
        i := i - 1;
      }
    }

    /** The first half of AM_InsertToLeafNotFound: value gets a slot at index, with an empty
        list. */
    method OpenSlotFor(value: Key, index: int)
      requires Shape() && 1 <= index <= hdr.numKeys + 1 <= MAX_SLOTS
      modifies this`hdr, slots
      ensures hdr == old(hdr).(keyPtr := old(hdr).keyPtr + RecSize(old(hdr).attrLength))
      ensures SlotOpened(old(slots[..]), slots[..], hdr.numKeys, index - 1, value)
    {
      ShiftRight(index);
      hdr := hdr.(keyPtr := hdr.keyPtr + RecSize(hdr.attrLength));
      slots[index - 1] := slots[index - 1].(key := value);
      slots[index - 1] := slots[index - 1].(head := AM_NULL);
    }

    /** AM_InsertToLeafNotFound: value gets a slot of its own at index, with recId alone.
        (The caller counts the new key.) */
    method InsertToLeafNotFound(value: Key, recId: RecId, index: int, ghost y: Layout) returns (ghost z: Layout)
      requires Shape() && Laid(Value(), y) && hdr.numKeys == |y.lists| && 1 <= index <= |y.lists| + 1
      requires hdr.recIdPtr - hdr.keyPtr >= RecSize(hdr.attrLength) + (if hdr.freeListPtr == AM_NULL then CELL else 0)
      modifies this`hdr, slots, cells
      ensures Laid(Value(), z)
      ensures EntriesAt(Value(), z) == InsertAt(old(EntriesAt(Value(), y)), index - 1, false, value, recId)
      ensures SameLeaf(hdr, old(hdr)) && hdr.numKeys == old(hdr.numKeys)
      ensures hdr.recIdPtr >= old(hdr.recIdPtr) || hdr.freeListPtr == AM_NULL
      ensures old(hdr.freeListPtr) == AM_NULL ==> hdr.freeListPtr == AM_NULL
    {
      ghost var lf := Value();
      RoomForSlot(hdr, y);
      OpenSlotFor(value, index);
      ghost var t := Value();
      ghost var w := OpenSlot(lf, y, t, index - 1, value);
      z := PushTaken(t, w, index - 1, recId);
      InsertToLeafFound(recId, index);
      OpenThenPush(EntriesAt(lf, y), index - 1, value, recId);
    }

    /** bcopy of a whole page. */
    method CopyFrom(temp: LeafBuf)
      requires Shape() && temp.Shape() && temp.slots != slots && temp.cells != cells
      modifies this`hdr, slots, cells
      ensures Value() == temp.Value()
    {
      hdr := temp.hdr;
      forall i | 0 <= i < slots.Length { slots[i] := temp.slots[i]; }
      forall i | 0 <= i < cells.Length { cells[i] := temp.cells[i]; }
      assert slots[..] == temp.slots[..] && cells[..] == temp.cells[..];
    }

    /** Compaction of the page in place, through a temporary page. */
    method CompactInPlace()
      requires Shape() && LeafOk(Value()) && hdr.numKeys >= 1
      modifies this`hdr, slots, cells
      ensures LeafOk(Value()) && Entries(Value()) == old(Entries(Value()))
      ensures SameLeaf(hdr, old(hdr)) && hdr.freeListPtr == AM_NULL
    {
      var tempPage := new LeafBuf.Temporary(hdr);
      ghost var y := LayoutOf(Value());
      ghost var z := Compact(1, hdr.numKeys, this, tempPage, y);
      Compacted(Value(), tempPage.Value(), z);
      CopyFrom(tempPage);
    }

    method AddToFound(recId: RecId, index: int)
      requires Shape() && LeafOk(Value()) && HasCell(hdr) && 1 <= index <= hdr.numKeys
      modifies this`hdr, slots, cells
      ensures LeafOk(Value()) && SameLeaf(hdr, old(hdr))
      ensures Entries(Value()) == InsertAt(old(Entries(Value())), index - 1, true, old(slots[index - 1].key), recId)
      ensures hdr.recIdPtr >= old(hdr.recIdPtr) || hdr.freeListPtr == AM_NULL
      ensures old(hdr.freeListPtr) == AM_NULL ==> hdr.freeListPtr == AM_NULL
    {
      PushedOk(Value(), index - 1, recId);
      InsertToLeafFound(recId, index);
    }

    method AddNew(value: Key, recId: RecId, index: int)
      requires Shape() && LeafOk(Value()) && 1 <= index <= hdr.numKeys + 1
      requires hdr.recIdPtr - hdr.keyPtr >= RecSize(hdr.attrLength) + (if hdr.freeListPtr == AM_NULL then CELL else 0)
      modifies this`hdr, slots, cells
      ensures LeafOk(Value()) && SameLeaf(hdr, old(hdr))
      ensures Entries(Value()) == InsertAt(old(Entries(Value())), index - 1, false, value, recId)
      ensures hdr.recIdPtr >= old(hdr.recIdPtr) || hdr.freeListPtr == AM_NULL
      ensures old(hdr.freeListPtr) == AM_NULL ==> hdr.freeListPtr == AM_NULL
    {
      ghost var lf, y := Value(), LayoutOf(Value());
      ghost var es := EntriesAt(lf, y);
      ghost var z := InsertToLeafNotFound(value, recId, index, y);
      ghost var t := Value();
      hdr := hdr.(numKeys := hdr.numKeys + 1);
      ghost var u := Value();
      Recount(t, z, u, es, index - 1, value, recId);
    }

    /** AM_InsertintoLeaf: the entry goes in exactly when the bytes not holding an entry
        suffice for it, wherever in the page they are; else the page is unchanged. */
    method InsertintoLeaf(value: Key, recId: RecId, index: int, found: bool) returns (inserted: bool)
      requires Shape() && LeafOk(Value()) && !Stranded(hdr)
      requires if found then 1 <= index <= hdr.numKeys && slots[index - 1].key == value
              else 1 <= index <= hdr.numKeys + 1
      modifies this`hdr, slots, cells
      ensures LeafOk(Value()) && SameLeaf(hdr, old(hdr))
      ensures var gap := old(hdr.recIdPtr - hdr.keyPtr);
        if found then inserted <==> gap + 6 * old(hdr.numinfreeList) >= 6
        else if old(hdr.freeListPtr) == 0 then inserted <==> gap >= hdr.attrLength + 8
        else inserted <==> gap + 6 * old(hdr.numinfreeList) > hdr.attrLength + 8
      ensures inserted <==> old(FreeBytes(hdr)) >= old(Need(hdr, found))
      ensures inserted ==> Entries(Value()) == InsertAt(old(Entries(Value())), index - 1, found, value, recId)
      ensures hdr.recIdPtr >= old(hdr.recIdPtr) || hdr.freeListPtr == AM_NULL
      ensures old(hdr.freeListPtr) == AM_NULL ==> hdr.freeListPtr == AM_NULL
      ensures !inserted ==> Value() == old(Value())
    {
      ghost var y := LayoutOf(Value());
      FreeListEmpty(Value(), y);
      var recSize := RecSize(hdr.attrLength);
      if found {
        if hdr.freeListPtr == 0 {
          if hdr.recIdPtr - hdr.keyPtr < AM_SI + AM_SS {
            return false;
          }
        }
        AddToFound(recId, index);
        return true;
      }
      if hdr.freeListPtr == 0 {
        if hdr.recIdPtr - hdr.keyPtr < AM_SI + AM_SS + recSize {
          return false;
        }
        AddNew(value, recId, index);
        return true;
      } else if hdr.recIdPtr - hdr.keyPtr > recSize {
        AddNew(value, recId, index);
        return true;
      } else if hdr.numinfreeList * (AM_SI + AM_SS) + hdr.recIdPtr - hdr.keyPtr > recSize + AM_SI + AM_SS {
        SpaceAccounting(Value(), y);
        CompactInPlace();
        SpaceAccounting(Value(), LayoutOf(Value()));
        FreeListEmpty(Value(), LayoutOf(Value()));
        AddNew(value, recId, index);
        return true;
      } else {
        return false;
      }
    }

    /** AM_SearchLeaf: whether value is a key of the leaf, and the (1-based) index where it
        is or belongs. */
    method SearchLeaf(value: Key) returns (found: bool, index: int)
      requires Shape() && 0 <= hdr.numKeys <= MAX_SLOTS && KeysRise(slots[..], hdr.numKeys)
      ensures 1 <= index && SlotPlace(slots[..], hdr.numKeys, value, found, index - 1)
    {
      var low, high := 1, hdr.numKeys;
      if high == 0 {
        return false, 1;
      }
      while high - low > 1
        invariant 1 <= low <= high <= hdr.numKeys
        invariant low > 1 ==> slots[low - 2].key < value
        invariant high < hdr.numKeys ==> value < slots[high].key
      {
        var mid := (low + high) / 2;
        var compareVal := Compare(slots[mid - 1].key, value);
        if compareVal < 0 {
          high := mid - 1;
        } else if compareVal > 0 {
          low := mid + 1;
        } else {
          return true, mid;
        }
      }
      var compareVal := Compare(slots[low - 1].key, value);
      if high - low == 0 {
        if compareVal < 0 {
          return false, low;
        } else if compareVal > 0 {
          return false, low + 1;
        } else {
          return true, low;
        }
      }
      if compareVal < 0 {
        return false, low;
      } else if compareVal == 0 {
        return true, low;
      }
      compareVal := Compare(slots[low].key, value);
      if compareVal < 0 {
        return false, low + 1;
      } else if compareVal > 0 {
        return false, low + 2;
      } else {
        return true, low + 1;
      }
    }

    /** The search of AM_DeleteEntry along the list at slot index: nextRec is the first cell
        that holds recId, or null; prev is the cell before it, or null when that is the slot. */
    method FindInList(recId: RecId, index: int, ghost s: seq<int>) returns (prev: int, nextRec: int, ghost p: nat)
      requires Shape() && 1 <= index <= slots.Length && IsChain(cells[..], slots[index - 1].head, s)
      ensures p <= |s| && nextRec == OffsetAt(s, p) && prev == if p == 0 then AM_NULL else s[p - 1]
      ensures forall q | 0 <= q < p :: cells[s[q]].recId != recId
      ensures p < |s| ==> cells[s[p]].recId == recId
    {
      prev, nextRec, p := AM_NULL, slots[index - 1].head, 0;
      while nextRec != AM_NULL
        invariant p <= |s| && nextRec == OffsetAt(s, p) && prev == if p == 0 then AM_NULL else s[p - 1]
        invariant forall q | 0 <= q < p :: cells[s[q]].recId != recId
        decreases |s| - p
      {
        if recId == cells[nextRec].recId {
          return;
        }
        prev := nextRec;
        nextRec := cells[nextRec].next;
        p := p + 1;
      }
    }

    /** Cell nextRec leaves the list at slot index for the free list. */
    method FreeCell(index: int, prev: int, nextRec: int, ghost s: seq<int>, ghost p: nat)
      requires Shape() && 1 <= index <= slots.Length && p < |s| && IsChain(cells[..], slots[index - 1].head, s)
      requires nextRec == s[p] && prev == (if p == 0 then AM_NULL else s[p - 1]) && prev != nextRec
      modifies this`hdr, slots, cells
      ensures Value() == Unlinked(old(Value()), s, index - 1, p)
    {
      if prev == AM_NULL {
        slots[index - 1] := slots[index - 1].(head := cells[nextRec].next);
      } else {
        cells[prev] := cells[prev].(next := cells[nextRec].next);
      }
      var oldhead := hdr.freeListPtr;
      hdr := hdr.(numinfreeList := hdr.numinfreeList + 1, freeListPtr := nextRec);
      cells[nextRec] := cells[nextRec].(next := oldhead);
    }

    /** The loop that closes the slot at index, and the header after it. */
    method RemoveSlot(index: int)
      requires Shape() && 1 <= index <= hdr.numKeys <= MAX_SLOTS
      modifies this`hdr, slots
      ensures SlotClosed(old(slots[..]), slots[..], old(hdr.numKeys), index - 1)
      ensures hdr == old(hdr).(numKeys := old(hdr.numKeys) - 1,
              keyPtr := old(hdr.keyPtr) - RecSize(old(hdr.attrLength)))
    {
      var i := index;
      while i < hdr.numKeys
        invariant index <= i <= hdr.numKeys && hdr == old(hdr)
        invariant forall j | 0 <= j < index - 1 || i - 1 <= j < MAX_SLOTS :: slots[j] == old(slots[..])[j]
        invariant forall j | index - 1 <= j < i - 1 :: slots[j] == old(slots[..])[j + 1]
      {
        slots[i - 1] := slots[i];
        i := i + 1;
      }
      hdr := hdr.(numKeys := hdr.numKeys - 1, keyPtr := hdr.keyPtr - RecSize(hdr.attrLength));
    }

    /** The first part of AM_DeleteEntry's work on a leaf: the first cell with recId is
        unlinked from the list at slot index. */
    method TakeOut(recId: RecId, index: int) returns (found: bool, ghost p: nat)
      requires Shape() && LeafOk(Value()) && 1 <= index <= hdr.numKeys
      modifies this`hdr, slots, cells
      ensures found <==> recId in old(Entries(Value()))[index - 1].recIds
      ensures !found ==> Value() == old(Value())
      ensures found ==> FirstAt(old(Entries(Value()))[index - 1].recIds, recId, p)
      ensures found ==> p < |LayoutOf(old(Value())).lists[index - 1]|
      ensures found ==> Value() == Unlinked(old(Value()), LayoutOf(old(Value())).lists[index - 1], index - 1, p)
    {
      hide Entries, FirstAt, RecIds, EntriesAt;
      ghost var lf := Value();
      ghost var s := LayoutOf(lf).lists[index - 1];
      var prev, nextRec;
      prev, nextRec, p := FindInList(recId, index, s);
      ListSearched(lf, index - 1, p, recId);
      if nextRec == AM_NULL {
        return false, p;
      }
      FreeCell(index, prev, nextRec, s, p);
      return true, p;
    }

    /** The leaf part of AM_DeleteEntry: the first recId in the list at slot index goes to the
        free list, and the key with it if the list is then empty; nothing changes if recId is
        not in the list. */
    method DeleteFromLeaf(recId: RecId, index: int) returns (found: bool, ghost p: nat)
      requires Shape() && LeafOk(Value()) && 1 <= index <= hdr.numKeys
      modifies this`hdr, slots, cells
      ensures found <==> recId in old(Entries(Value()))[index - 1].recIds
      ensures !found ==> Value() == old(Value())
      ensures found ==> Deleted(old(Value()), Value(), index - 1, p)
      ensures found ==> FirstAt(old(Entries(Value()))[index - 1].recIds, recId, p)
      ensures found ==> Entries(Value()) == DeleteAt(old(Entries(Value())), index - 1, recId)
    {
      hide IsChain, OffsetAt, Deleted, DeleteAt, FirstAt, RecIds, EntriesAt, SlotClosed, Bypass, ListsOk;
      ghost var lf := Value();
      found, p := TakeOut(recId, index);
      if found {
        ghost var u := Value();
        if slots[index - 1].head == AM_NULL {
          RemoveSlot(index);
        }
        DeleteFound(lf, index - 1, p, recId, u, Value());
      }
    }
  }

  ghost predicate KeysRise(slots: seq<Slot>, n: nat)
    requires n <= |slots|
  {
    forall i, j | 0 <= i < j < n :: slots[i].key < slots[j].key
  }

  /** i is where k is among the first n slots, or where it belongs: its neighbours say so. */
  ghost predicate SlotPlace(slots: seq<Slot>, n: nat, k: Key, found: bool, i: nat)
    requires n <= |slots|
  {
    && i <= n
    && (i > 0 ==> slots[i - 1].key < k)
    && (if found then i < n && slots[i].key == k else i < n ==> k < slots[i].key)
  }

  lemma LeafKeysRise(lf: Leaf)
    requires LeafOk(lf) && Sorted(Entries(lf))
    ensures 0 <= lf.hdr.numKeys <= |lf.slots| && KeysRise(lf.slots, lf.hdr.numKeys)
  {
    var es := Entries(lf);
    forall i, j | 0 <= i < j < |es| ensures lf.slots[i].key < lf.slots[j].key {
      assert es[i].key == lf.slots[i].key && es[j].key == lf.slots[j].key;
    }
  }

  lemma PlaceBySlots(lf: Leaf, k: Key, found: bool, i: nat)
    requires LeafOk(lf) && Sorted(Entries(lf)) && lf.hdr.numKeys <= |lf.slots|
    requires SlotPlace(lf.slots, lf.hdr.numKeys, k, found, i)
    ensures IsPlace(Entries(lf), k, found, i)
  {
    EntryKeys(lf);
    PlaceByKeys(lf.slots, Entries(lf), k, found, i);
  }

  lemma EntryKeys(lf: Leaf)
    requires LeafOk(lf)
    ensures |Entries(lf)| == lf.hdr.numKeys <= |lf.slots|
    ensures forall j | 0 <= j < |Entries(lf)| :: Entries(lf)[j].key == lf.slots[j].key
  {
  }

  lemma PlaceByKeys(slots: seq<Slot>, es: seq<Entry>, k: Key, found: bool, i: nat)
    requires Sorted(es) && |es| <= |slots| && SlotPlace(slots, |es|, k, found, i)
    requires forall j | 0 <= j < |es| :: es[j].key == slots[j].key
    ensures IsPlace(es, k, found, i)
  {
  }

  /** A search of list i that stopped at p has found the first r, or there is none. */
  lemma ListSearched(lf: Leaf, i: nat, p: nat, r: RecId)
    requires LeafOk(lf) && i < lf.hdr.numKeys && p <= |LayoutOf(lf).lists[i]|
    requires var s := LayoutOf(lf).lists[i];
             && (forall q | 0 <= q < p :: lf.cells[s[q]].recId != r)
             && (p < |s| ==> lf.cells[s[p]].recId == r)
    ensures var s, rs := LayoutOf(lf).lists[i], Entries(lf)[i].recIds;
            && |rs| == |s|
            && (OffsetAt(s, p) == AM_NULL <==> p == |s|)
            && (p == |s| ==> r !in rs)
            && (p < |s| ==> FirstAt(rs, r, p))
            && (0 < p < |s| ==> s[p - 1] != s[p])
  {
    var s, rs := LayoutOf(lf).lists[i], Entries(lf)[i].recIds;
    assert rs == RecIds(lf.cells, s);
    ListDistinct(lf, LayoutOf(lf), i);
  }

  lemma Compacted(lf: Leaf, t: Leaf, z: Layout)
    requires LeafOk(lf) && LeafAt(t, z)
    requires EntriesAt(t, z) == EntriesAt(lf, LayoutOf(lf))[0..lf.hdr.numKeys]
    ensures LeafOk(t) && Entries(t) == Entries(lf)
  {
    LayoutUnique(t, z);
  }

  lemma PushedOk(lf: Leaf, i: nat, r: RecId)
    requires LeafOk(lf) && HasCell(lf.hdr) && i < lf.hdr.numKeys
    ensures 0 < TakenCell(lf) < |lf.cells|
    ensures var t := Pushed(lf, i, TakenCell(lf), r, TakenHeader(lf));
            LeafOk(t) && Entries(t) == InsertAt(Entries(lf), i, true, lf.slots[i].key, r)
  {
    var y := LayoutOf(lf);
    var z := PushTaken(lf, y, i, r);
    var t := Pushed(lf, i, TakenCell(lf), r, TakenHeader(lf));
    assert LeafAt(t, z);
    LayoutUnique(t, z);
  }

  lemma Recount(t: Leaf, z: Layout, u: Leaf, es: seq<Entry>, i: nat, k: Key, r: RecId)
    requires Laid(t, z) && u == t.(hdr := t.hdr.(numKeys := |z.lists|))
    requires NoEmptyList(es) && i <= |es| && EntriesAt(t, z) == InsertAt(es, i, false, k, r)
    ensures LeafOk(u) && Entries(u) == EntriesAt(t, z)
  {
    assert NoEmptyList(EntriesAt(t, z));
    assert LeafAt(u, z);
    LayoutUnique(u, z);
  }

  /** The inner loop of AM_Compact: the list s of page that starts at nextRec is written to
      the cells of temp from recIdPtr downwards. */
  method CompactList(page: LeafBuf, temp: LeafBuf, head: int, start: int, ghost s: seq<int>)
      returns (recIdPtr: int, ghost u: seq<int>)
    requires page.Shape() && temp.Shape() && page.cells != temp.cells
    requires IsChain(page.cells[..], head, s) && s != []
    requires CELL * |s| <= start <= PF_PAGE_SIZE - CELL
    modifies temp.cells
    ensures recIdPtr == start - CELL * |s| && |u| == |s| && Descends(u, start)
    ensures forall o | start < o < PF_PAGE_SIZE :: temp.cells[o] == old(temp.cells[o])
    ensures IsChain(temp.cells[..], start, u)
    ensures RecIds(temp.cells[..], u) == RecIds(page.cells[..], s)
  {
    hide RecIds;
    ghost var from := page.cells[..];
    recIdPtr, u := start, [];
    var nextRec := head;
    while nextRec != AM_NULL
      invariant |u| <= |s| && nextRec == OffsetAt(s, |u|) && Descends(u, start)
      invariant recIdPtr == start - CELL * |u|
      invariant forall o | start < o < PF_PAGE_SIZE :: temp.cells[o] == old(temp.cells[o])
      invariant forall v | 0 <= v < |u| :: 0 < u[v] < PF_PAGE_SIZE
      invariant Copied(from, s, temp.cells[..], u)
      decreases |s| - |u|
    {
      ghost var a := temp.cells[..];
      CopyStep(from, s, a, u, start, recIdPtr);
      temp.cells[recIdPtr] := temp.cells[recIdPtr].(recId := page.cells[nextRec].recId);
      u := u + [recIdPtr];
      recIdPtr := recIdPtr - AM_SI - AM_SS;
      temp.cells[recIdPtr + CELL] := temp.cells[recIdPtr + CELL].(next := recIdPtr);
      assert temp.cells[..] == a[recIdPtr + CELL := Cell(from[nextRec].recId, recIdPtr)];
      nextRec := page.cells[nextRec].next;
    }
    CopiedIsChain(from, s, temp.cells[..], u, start);
    temp.cells[recIdPtr + CELL] := temp.cells[recIdPtr + CELL].(next := nextRec);
  }

  /** One turn of the outer loop of AM_Compact: key i of page, whose list is s, becomes key j
      of temp, with its cells from start downwards. */
  method CompactKey(i: int, j: int, page: LeafBuf, temp: LeafBuf, start: int, ghost s: seq<int>)
      returns (recIdPtr: int, ghost u: seq<int>)
    requires page.Shape() && temp.Shape() && page.slots != temp.slots && page.cells != temp.cells
    requires 1 <= j <= MAX_SLOTS && 1 <= i <= MAX_SLOTS
    requires s != [] && IsChain(page.cells[..], page.slots[i - 1].head, s)
    requires CELL * |s| <= start <= PF_PAGE_SIZE - CELL
    modifies temp.slots, temp.cells
    ensures temp.slots[..] == old(temp.slots[..])[j - 1 := Slot(page.slots[i - 1].key, start)]
    ensures recIdPtr == start - CELL * |s| && |u| == |s| && Descends(u, start)
    ensures forall o | start < o < PF_PAGE_SIZE :: temp.cells[..][o] == old(temp.cells[..])[o]
    ensures IsChain(temp.cells[..], start, u)
    ensures RecIds(temp.cells[..], u) == RecIds(page.cells[..], s)
  {
    temp.slots[j - 1] := temp.slots[j - 1].(key := page.slots[i - 1].key);
    temp.slots[j - 1] := temp.slots[j - 1].(head := start);
    recIdPtr, u := CompactList(page, temp, page.slots[i - 1].head, start, s);
  }

  /** The outer loop of AM_Compact, over the keys low..high. */
  method CompactKeys(low: int, high: int, page: LeafBuf, temp: LeafBuf, ghost y: Layout)
      returns (recIdPtr: int, offset2: int, ghost zs: seq<seq<int>>)
    requires page.Shape() && temp.Shape() && page.slots != temp.slots && page.cells != temp.cells
    requires LeafAt(page.Value(), y) && 1 <= low <= high <= page.hdr.numKeys
    modifies temp.slots, temp.cells
    ensures CompactState(EntriesAt(page.Value(), y), y.lists, low - 1, high, temp.slots[..], temp.cells[..], zs)
    ensures recIdPtr == CellBelow(|Cat(zs)|)
    ensures offset2 == AM_SL + SlotBytes(high - low, RecSize(page.hdr.attrLength))
  {
    hide CompactState, OffsetAt, RecIds, EntriesAt, Descends;
    ghost var es, lo := EntriesAt(page.Value(), y), low - 1;
    var recSize := RecSize(page.hdr.attrLength);
    zs, recIdPtr, offset2 := [], PF_PAGE_SIZE - AM_SI - AM_SS, AM_SL - recSize;
    var i, j := low, 1;
    CompactStart(es, y.lists, lo, temp.slots[..], temp.cells[..]);
    while i <= high
      invariant low <= i <= high + 1 && j == i - low + 1
      invariant recIdPtr == CellBelow(|Cat(zs)|)
      invariant i > low ==> offset2 == AM_SL + SlotBytes(j - 2, recSize)
      invariant CompactState(es, y.lists, lo, i - 1, temp.slots[..], temp.cells[..], zs)
    {
      offset2 := (j - 1) * recSize + AM_SL;
      SlotBytesIs(j - 1, recSize);
      CompactRoom(page.Value(), y, lo, i - 1);
      ghost var a, cs, start := temp.slots[..], temp.cells[..], recIdPtr;
      CompactCounts(es, y.lists, lo, i - 1, a, cs, zs);
      ghost var u;
      recIdPtr, u := CompactKey(i, j, page, temp, recIdPtr, y.lists[i - 1]);
      CompactStep(es, y.lists, lo, i - 1, a, cs, zs, page.slots[i - 1].key, temp.slots[..], temp.cells[..], u, start);
      zs := zs + [u];
      i, j := i + 1, j + 1;
    }
  }

  /** AM_Compact: keys low..high of page, with their recIds in order, are written to temp
      with all cells contiguous at the page end and an empty free list. */
  method Compact(low: int, high: int, page: LeafBuf, temp: LeafBuf, ghost y: Layout) returns (ghost z: Layout)
    requires page.Shape() && temp.Shape() && page != temp && page.slots != temp.slots && page.cells != temp.cells
    requires LeafAt(page.Value(), y) && 1 <= low <= high <= page.hdr.numKeys
    modifies temp`hdr, temp.slots, temp.cells
    ensures LeafAt(temp.Value(), z) && z.free == []
    ensures EntriesAt(temp.Value(), z) == EntriesAt(page.Value(), y)[low - 1..high]
    ensures SameLeaf(temp.hdr, page.hdr) && temp.hdr.freeListPtr == AM_NULL
  {
    hide CompactState;
    var recIdPtr, offset2;
    ghost var zs;
    recIdPtr, offset2, zs := CompactKeys(low, high, page, temp, y);
    temp.hdr := page.hdr.(recIdPtr := recIdPtr + AM_SI + AM_SS, keyPtr := offset2 + RecSize(page.hdr.attrLength),
                          freeListPtr := AM_NULL, numinfreeList := 0, numKeys := high - low + 1);
    z := Layout(zs, []);
    CompactCounts(EntriesAt(page.Value(), y), y.lists, low - 1, high, temp.slots[..], temp.cells[..], zs);
    CompactDone(page.Value(), y, low - 1, high, temp.Value(), zs);
  }

  /** The lists lo..i of a page and list i after them have room below one another. */
  lemma CompactRoom(lf: Leaf, y: Layout, lo: nat, i: nat)
    requires LeafAt(lf, y) && lo <= i < |y.lists|
    ensures CELL * (|Cat(y.lists[lo..i])| + |y.lists[i]| + 1) <= PF_PAGE_SIZE
    ensures y.lists[i] != [] && IsChain(lf.cells, lf.slots[i].head, y.lists[i])
    ensures EntriesAt(lf, y)[i] == Entry(lf.slots[i].key, RecIds(lf.cells, y.lists[i]))
  {
    CellsFit(lf, y);
    SliceExtend(y.lists, lo, i);
    CatAppend(y.lists[lo..i], y.lists[i]);
    CatShorter(y.lists, lo, i + 1);
    assert EntriesAt(lf, y)[i].recIds != [];
  }

  /** A laid-out page with a slot's worth of gap has fewer slots than the page can hold. */
  lemma RoomForSlot(h: LeafHeader, y: Layout)
    requires Counted(h, y) && h.recIdPtr - h.keyPtr >= RecSize(h.attrLength)
    ensures |y.lists| < MAX_SLOTS
  {
    SlotBytesAtLeast(|y.lists|, RecSize(h.attrLength));
  }

  lemma OpenThenPush(es: seq<Entry>, i: nat, k: Key, r: RecId)
    requires i <= |es|
    ensures InsertAt(es[..i] + [Entry(k, [])] + es[i..], i, true, k, r) == InsertAt(es, i, false, k, r)
  {
    var fs := es[..i] + [Entry(k, [])] + es[i..];
    assert fs[i] == Entry(k, []) && [r] + [] == [r];
    assert InsertAt(fs, i, true, k, r) == es[..i] + [Entry(k, [r])] + es[i..];
  }
}
