/** The two halves AM_SplitLeaf makes of a full leaf, and why the new entry always fits. */
module AmHalves {
  import opened AmEntries
  import opened AmLeafPage
  import opened AmLeafBuf

  /** The most recIds a key may have so that no leaf ever fills up with one key alone. */
  function MaxRecIds(attrLength: int): int {
    (PF_PAGE_SIZE - AM_SL - CELL - 1 - 2 * RecSize(attrLength)) / CELL
  }

  ghost predicate ShortLists(es: seq<Entry>, max: int) {
    forall i | 0 <= i < |es| :: |es[i].recIds| <= max
  }

  /** A leaf on which insertion is never stranded and whose lists are short. */
  ghost predicate Roomy(lf: Leaf) {
    && LeafOk(lf)
    && lf.hdr.recIdPtr - AM_SL > RecSize(lf.hdr.attrLength)
    && ShortLists(Entries(lf), MaxRecIds(lf.hdr.attrLength))
  }

  /** What AM_InsertEntry needs of the leaf it comes to: a leaf that has to be compacted or
      split holds keys to compact or split (aminsert.c:212, am.c:38). */
  ghost predicate CanTake(h: LeafHeader, found: bool) {
    !Stranded(h) && (h.numKeys >= 2 || FreeBytes(h) >= Need(h, found))
  }

  // ---- weights ----

  lemma WeightSplit(es: seq<Entry>, m: nat, recSize: int)
    requires m <= |es|
    ensures Weight(es, recSize) == Weight(es[..m], recSize) + Weight(es[m..], recSize)
  {
    assert es == es[..m] + es[m..];
    WeightConcat(es[..m], es[m..], recSize);
  }

  lemma NonEmptyWeighs(es: seq<Entry>, recSize: int)
    requires NoEmptyList(es) && es != [] && recSize >= 0
    ensures Weight(es, recSize) >= recSize + CELL
  {
    WeightAtLeast(es, recSize);
    SlotBytesMonotone(1, |es|, recSize + CELL);
  }

  /** Either half leaves room for one more key with a recId. */
  lemma HalfHasRoom(es: seq<Entry>, m: nat, recSize: int)
    requires NoEmptyList(es) && 1 <= m < |es| && recSize >= 0
    ensures Weight(es[..m], recSize) + recSize + CELL <= Weight(es, recSize)
    ensures Weight(es[m..], recSize) + recSize + CELL <= Weight(es, recSize)
  {
    WeightSplit(es, m, recSize);
    NonEmptyWeighs(es[..m], recSize);
    NonEmptyWeighs(es[m..], recSize);
  }

  lemma LeafSpace(lf: Leaf)
    requires LeafOk(lf)
    ensures FreeBytes(lf.hdr) + Weight(Entries(lf), RecSize(lf.hdr.attrLength)) == PF_PAGE_SIZE - AM_SL
    ensures |Entries(lf)| == lf.hdr.numKeys && NoEmptyList(Entries(lf))
    ensures 1 <= lf.hdr.attrLength <= 255
    ensures lf.hdr.freeListPtr == AM_NULL ==> FreeBytes(lf.hdr) == lf.hdr.recIdPtr - lf.hdr.keyPtr
    ensures AM_SL + SlotBytes(lf.hdr.numKeys, RecSize(lf.hdr.attrLength)) == lf.hdr.keyPtr <= lf.hdr.recIdPtr
    ensures FreeBytes(lf.hdr) >= 0
  {
    hide ChainOf, LastCells, Weight;
    SpaceAccounting(lf, LayoutOf(lf));
  }

  /** A leaf on which entries may be of any kind but short lists: full means two keys. */
  lemma RoomyCanTake(lf: Leaf, found: bool)
    requires Roomy(lf)
    requires found ==> lf.hdr.numKeys >= 1
    ensures CanTake(lf.hdr, found)
  {
    hide LeafOk, Entries;
    LeafSpace(lf);
    var es, rs := Entries(lf), RecSize(lf.hdr.attrLength);
    if lf.hdr.numKeys == 0 {
      assert Weight(es, rs) == 0;
    } else if lf.hdr.numKeys == 1 {
      WeightOne(es, rs);
    }
  }

  /** A leaf without free cells, with keys and with short lists, is roomy. */
  lemma RoomyIfNoFree(lf: Leaf)
    requires LeafOk(lf) && lf.hdr.freeListPtr == AM_NULL && lf.hdr.numKeys >= 1
    requires ShortLists(Entries(lf), MaxRecIds(lf.hdr.attrLength))
    ensures Roomy(lf)
  {
    hide LeafOk, Entries, Weight, SlotBytes, NoEmptyList;
    LeafSpace(lf);
    var es, rs := Entries(lf), RecSize(lf.hdr.attrLength);
    SlotBytesTwo(rs);
    if lf.hdr.numKeys == 1 {
      WeightOne(es, rs);
    } else {
      SlotBytesMonotone(2, lf.hdr.numKeys, rs);
    }
  }

  lemma WeightOne(es: seq<Entry>, recSize: int)
    requires |es| == 1
    ensures Weight(es, recSize) == recSize + CELL * |es[0].recIds|
  {
    assert es[..0] == [];
  }

  lemma SlotBytesTwo(recSize: int)
    ensures SlotBytes(1, recSize) == recSize && SlotBytes(2, recSize) == 2 * recSize
  {
    assert SlotBytes(2, recSize) == SlotBytes(1, recSize) + recSize;
    assert SlotBytes(1, recSize) == SlotBytes(0, recSize) + recSize;
  }

  lemma EmptyLeafRoomy(lf: Leaf)
    requires LeafOk(lf) && lf.hdr.recIdPtr == PF_PAGE_SIZE && Entries(lf) == []
    ensures Roomy(lf)
  {
    LeafSpace(lf);
  }

  // ---- entries ----

  lemma InsertInHalf(es: seq<Entry>, m: nat, i: nat, found: bool, k: Key, r: RecId)
    requires 1 <= m < |es| && (if found then i < |es| else i <= |es|)
    ensures i < m ==> InsertAt(es[..m], i, found, k, r) + es[m..] == InsertAt(es, i, found, k, r)
    ensures i >= m ==> es[..m] + InsertAt(es[m..], i - m, found, k, r) == InsertAt(es, i, found, k, r)
  {
    var t := InsertAt(es, i, found, k, r);
    if i < m {
      var u := InsertAt(es[..m], i, found, k, r) + es[m..];
      assert |u| == |t|;
      forall x | 0 <= x < |t| ensures u[x] == t[x] {
      }
    } else {
      var u := es[..m] + InsertAt(es[m..], i - m, found, k, r);
      assert |u| == |t|;
      forall x | 0 <= x < |t| ensures u[x] == t[x] {
      }
    }
  }

  /** left and right hold es with recId inserted, both have keys, and key divides them. */
  ghost predicate HalvesOf(t: seq<Entry>, left: Leaf, right: Leaf, key: Key) {
    && LeafOk(left) && LeafOk(right)
    && Entries(left) + Entries(right) == t
    && Entries(left) != [] && Entries(right) != []
    && key == Entries(right)[0].key
  }

  /** One half of a leaf that rejected an entry accepts it. */
  lemma HalfTakes(lf: Leaf, m: nat, half: Leaf, es: seq<Entry>, found: bool)
    requires LeafOk(lf) && LeafOk(half) && half.hdr.freeListPtr == AM_NULL && half.hdr.attrLength == lf.hdr.attrLength
    requires 1 <= m < |Entries(lf)| && (es == Entries(lf)[..m] || es == Entries(lf)[m..]) && Entries(half) == es
    ensures FreeBytes(half.hdr) >= Need(half.hdr, found) && !Stranded(half.hdr)
  {
    hide LeafOk;
    LeafSpace(lf);
    LeafSpace(half);
    HalfHasRoom(Entries(lf), m, RecSize(lf.hdr.attrLength));
  }

  lemma CompactedHalf(lf: Leaf, t: Leaf, z: Layout, lo: nat, hi: nat)
    requires LeafOk(lf) && LeafAt(t, z) && lo < hi <= lf.hdr.numKeys
    requires EntriesAt(t, z) == EntriesAt(lf, LayoutOf(lf))[lo..hi]
    ensures LeafOk(t) && Entries(t) == Entries(lf)[lo..hi] && t.hdr.numKeys == hi - lo
  {
    LayoutUnique(t, z);
  }

  /** AM_Compact into a temporary page, in terms of entries. */
  method CompactHalf(low: int, high: int, page: LeafBuf) returns (temp: LeafBuf)
    requires page.Shape() && LeafOk(page.Value()) && 1 <= low <= high <= page.hdr.numKeys
    ensures fresh(temp) && fresh(temp.slots) && fresh(temp.cells) && temp.Shape()
    ensures LeafOk(temp.Value()) && Entries(temp.Value()) == Entries(page.Value())[low - 1..high]
    ensures SameLeaf(temp.hdr, page.hdr) && temp.hdr.freeListPtr == AM_NULL && temp.hdr.numKeys == high - low + 1
  {
    temp := new LeafBuf.Temporary(page.hdr);
    ghost var lf := page.Value();
    ghost var z := Compact(low, high, page, temp, LayoutOf(lf));
    CompactedHalf(lf, temp.Value(), z, low - 1, high);
  }

  lemma FirstSlot(lf: Leaf)
    requires LeafOk(lf) && Entries(lf) != []
    ensures |lf.slots| > 0 && lf.slots[0].key == Entries(lf)[0].key
  {
    EntryKeys(lf);
  }

  lemma SlotKey(lf: Leaf, i: nat)
    requires LeafOk(lf) && i < |Entries(lf)|
    ensures i < |lf.slots| && lf.slots[i].key == Entries(lf)[i].key && |Entries(lf)| == lf.hdr.numKeys
  {
    EntryKeys(lf);
  }

  ghost predicate HalfPost(h: LeafHeader, g: LeafHeader) {
    SameLeaf(h, g) && h.freeListPtr == AM_NULL
  }

  /** The insertion into the chosen half.  AM_SplitLeaf ignores its result; here it is proved
      to be TRUE. */
  method InsertInto(half: LeafBuf, recId: RecId, value: Key, index: int, found: bool, ghost lf: Leaf, ghost m: nat)
    requires half.Shape() && LeafOk(half.Value()) && half.hdr.freeListPtr == AM_NULL
    requires LeafOk(lf) && half.hdr.attrLength == lf.hdr.attrLength && 1 <= m < |Entries(lf)|
    requires Entries(half.Value()) == Entries(lf)[..m] || Entries(half.Value()) == Entries(lf)[m..]
    requires if found then 1 <= index <= |Entries(half.Value())| && Entries(half.Value())[index - 1].key == value
             else 1 <= index <= |Entries(half.Value())| + 1
    modifies half`hdr, half.slots, half.cells
    ensures LeafOk(half.Value())
    ensures Entries(half.Value()) == InsertAt(old(Entries(half.Value())), index - 1, found, value, recId)
    ensures HalfPost(half.hdr, old(half.hdr))
  {
    hide LeafOk, Entries, InsertAt;
    ghost var t := half.Value();
    HalfTakes(lf, m, t, Entries(t), found);
    LeafSpace(t);
    if found { SlotKey(t, index - 1); }
    var inserted := half.InsertintoLeaf(value, recId, index, found);
    assert inserted;
  }

  /** The two AM_Compact calls of AM_SplitLeaf and the insertion into the chosen half.  The
      result of that insertion is ignored by the source; here it is proved to be TRUE. */
  method SplitHalves(page: LeafBuf, recId: RecId, value: Key, index: int, found: bool)
      returns (left: LeafBuf, right: LeafBuf, key: Key)
    requires page.Shape() && LeafOk(page.Value()) && page.hdr.numKeys >= 2
    requires if found then 1 <= index <= page.hdr.numKeys && page.slots[index - 1].key == value
             else 1 <= index <= page.hdr.numKeys + 1
    ensures fresh(left) && fresh(left.slots) && fresh(left.cells) && left.Shape()
    ensures fresh(right) && fresh(right.slots) && fresh(right.cells) && right.Shape()
    ensures left != right && left.slots != right.slots && left.cells != right.cells
    ensures HalvesOf(InsertAt(Entries(page.Value()), index - 1, found, value, recId), left.Value(), right.Value(), key)
    ensures HalfPost(left.hdr, page.hdr) && HalfPost(right.hdr, page.hdr)
    ensures left.hdr.numKeys == page.hdr.numKeys / 2 + if !found && index <= page.hdr.numKeys / 2 then 1 else 0
  {
    hide LeafOk, Entries, InsertAt, Weight, SlotBytes, NoEmptyList, Need, Stranded;
    ghost var lf := page.Value();
    ghost var es := Entries(lf);
    LeafSpace(lf);
    if found { SlotKey(lf, index - 1); }
    var m := page.hdr.numKeys / 2;
    left := CompactHalf(1, m, page);
    right := CompactHalf(m + 1, page.hdr.numKeys, page);
    assert es[0..m] == es[..m] && es[m..page.hdr.numKeys] == es[m..];
    InsertInHalf(es, m, index - 1, found, value, recId);
    if index <= m {
      InsertInto(left, recId, value, index, found, lf, m);
      InsertAtSize(es[..m], index - 1, found, value, recId);
    } else {
      InsertInto(right, recId, value, index - m, found, lf, m);
      InsertAtSize(es[m..], index - m - 1, found, value, recId);
    }
    FirstSlot(right.Value());
    LeafSpace(left.Value());
    key := right.slots[0].key;
  }

  lemma InsertAtSize(es: seq<Entry>, i: nat, found: bool, k: Key, r: RecId)
    requires if found then i < |es| else i <= |es|
    ensures InsertAt(es, i, found, k, r) != [] && |InsertAt(es, i, found, k, r)| == |es| + if found then 0 else 1
  {
  }
}
