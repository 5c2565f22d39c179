/** Insertions that amlayer does not define: AM_Compact leaves keyPtr undefined on an empty range of
    keys.  When that happens, and ordinary runs that get there. */
module AmFull {
  import opened Sequences
  import opened AmEntries
  import opened AmLeafPage
  import opened AmLeafSteps
  import opened AmLeafBuf
  import opened AmHalves
  import opened AmTree
  import opened AmLeaves
  import opened AmUpdate
  import opened AmIndex
  import opened AmRun

  /** The key ranges on which AM_InsertEntry calls AM_Compact for a leaf with header h:
      aminsert.c:41-80, and am.c:38,45 when the leaf has to be split. */
  function CompactRanges(h: LeafHeader, found: bool): seq<(int, int)> {
    var halves := [(1, h.numKeys / 2), (h.numKeys / 2 + 1, h.numKeys)];
    var gap, recSize := h.recIdPtr - h.keyPtr, RecSize(h.attrLength);
    if found then
      if h.freeListPtr == AM_NULL && gap < CELL then halves else []
    else if h.freeListPtr == AM_NULL then
      if gap < recSize + CELL then halves else []
    else if gap > recSize then []
    else if h.numinfreeList * CELL + gap > recSize + CELL then [(1, h.numKeys)]
    else halves
  }

  /** Of a well-formed leaf, an insertion compacts only ranges with keys in them, so that
      every page it makes has its keyPtr set, exactly when CanTake holds. */
  lemma DefinedIffCanTake(lf: Leaf, found: bool)
    requires LeafOk(lf) && (found ==> lf.hdr.numKeys >= 1)
    ensures (forall r | r in CompactRanges(lf.hdr, found) :: r.0 <= r.1) <==> CanTake(lf.hdr, found)
    ensures var h, gap := lf.hdr, lf.hdr.recIdPtr - lf.hdr.keyPtr;
            CanTake(h, found) <==>
            if h.numKeys == 0 then gap > h.attrLength + 2
            else if h.numKeys > 1 then true
            else if found then gap + 6 * h.numinfreeList >= 6
            else gap + 6 * h.numinfreeList >= h.attrLength + 8 + if h.freeListPtr == 0 then 0 else 1
  {
    var h := lf.hdr;
    FreeListOf(lf);
    LeafSpace(lf);
    if h.numKeys == 0 {
      assert Weight(Entries(lf), RecSize(h.attrLength)) == 0;
    }
    hide LeafOk, Entries, Weight, CanTake, CompactRanges;
    CompactCases(h, found);
    TakeCases(h, found);
  }

  lemma TakeCases(h: LeafHeader, found: bool)
    requires 0 <= h.numKeys && 1 <= h.attrLength <= 255 && (found ==> h.numKeys >= 1)
    requires h.numKeys == 0 ==> FreeBytes(h) == PF_PAGE_SIZE - AM_SL
    ensures var gap := h.recIdPtr - h.keyPtr;
            CanTake(h, found) <==>
            if h.numKeys == 0 then gap > h.attrLength + 2
            else if h.numKeys > 1 then true
            else if found then gap + 6 * h.numinfreeList >= 6
            else gap + 6 * h.numinfreeList >= h.attrLength + 8 + if h.freeListPtr == 0 then 0 else 1
  {
  }

  lemma CompactCases(h: LeafHeader, found: bool)
    requires 0 <= h.numKeys && 1 <= h.attrLength <= 255 && (found ==> h.numKeys >= 1)
    requires h.keyPtr <= h.recIdPtr && 0 <= h.numinfreeList
    requires h.freeListPtr == AM_NULL <==> h.numinfreeList == 0
    requires h.numKeys == 0 ==> FreeBytes(h) == PF_PAGE_SIZE - AM_SL
    ensures (forall r | r in CompactRanges(h, found) :: r.0 <= r.1) <==> CanTake(h, found)
  {
    var a, b, w := (1, h.numKeys / 2), (h.numKeys / 2 + 1, h.numKeys), (1, h.numKeys);
    assert a in [a, b] && b in [a, b] && w in [w];
    var ranges := CompactRanges(h, found);
    assert ranges == [a, b] || ranges == [w] || ranges == [];
    if ranges == [a, b] {
      assert FreeBytes(h) < Need(h, found);
    } else {
      assert FreeBytes(h) >= Need(h, found);
    }
  }

  ghost function CountDown(n: nat): seq<RecId> {
    if n == 0 then [] else [n - 1] + CountDown(n - 1)
  }

  const ONE_KEY_RECIDS := 165

  lemma {:induction false} CountDownSize(n: nat)
    ensures |CountDown(n)| == n
  {
    if n > 0 {
      CountDownSize(n - 1);
    }
  }

  lemma OneKeySpace(lf: Leaf, k: Key, rs: seq<RecId>)
    requires LeafOk(lf) && lf.hdr.attrLength == 4
    requires Entries(lf) == if rs == [] then [] else [Entry(k, rs)]
    ensures FreeBytes(lf.hdr) == PF_PAGE_SIZE - AM_SL - (if rs == [] then 0 else RecSize(4) + CELL * |rs|)
    ensures lf.hdr.numKeys == if rs == [] then 0 else 1
    ensures lf.hdr.numKeys == 1 ==> |lf.slots| > 0 && lf.slots[0].key == k
    ensures lf.hdr.freeListPtr == AM_NULL ==> lf.hdr.recIdPtr - lf.hdr.keyPtr == FreeBytes(lf.hdr)
    ensures AM_SL + RecSize(4) * lf.hdr.numKeys == lf.hdr.keyPtr <= lf.hdr.recIdPtr
  {
    LeafSpace(lf);
    EntryKeys(lf);
    hide LeafOk;
    if rs != [] {
      assert Entries(lf)[..0] == [];
    }
    SlotBytesIs(lf.hdr.numKeys, RecSize(4));
  }

  lemma FreeListOf(lf: Leaf)
    requires LeafOk(lf)
    ensures 0 <= lf.hdr.numinfreeList && (lf.hdr.freeListPtr == AM_NULL <==> lf.hdr.numinfreeList == 0)
  {
    FreeListEmpty(lf, LayoutOf(lf));
  }

  // ---- an index with one key ----

  /** All the entries of a file with one key are on the leaf that the key belongs to. */
  lemma OneKeyLeaf(f: File, ht: seq<nat>, h: nat, c: Config, k: Key, rs: seq<RecId>, q: nat)
    requires TreeOk(f, ht, h, c) && Contents(f, Leaves(f, h)) == (if rs == [] then [] else [Entry(k, rs)])
    requires q < |Leaves(f, h)| && InRange(Leaves(f, h), q, k)
    ensures IsLeaf(f, Leaves(f, h)[q].page)
    ensures var lf := f[Leaves(f, h)[q].page].leaf;
            LeafOk(lf) && lf.hdr.attrLength == c.attrLength && Entries(lf) == if rs == [] then [] else [Entry(k, rs)]
  {
    hide LeafOk, LeavesOk, Leaves, Contents, Before, After, AsMap, Lookup, LeafEntries, TreeOk, IsPlace, InRange,
         Entries;
    var level := Leaves(f, h);
    LeavesOfTree(f, ht, h, c);
    LeafFits(f, ht, level, c, q);
    ContentsAround(f, level, q);
    var es := LeafEntries(f, level[q].page);
    LeafSorted(f, ht, level, c, q);
    if rs != [] {
      var found, i := PlaceExists(es, k);
      LookupHere(f, ht, h, c, q, k, found, i, es);
      OneInMap(k, rs);
      PlaceHasKey(es, k, found, i);
    }
  }

  lemma OneInMap(k: Key, rs: seq<RecId>)
    ensures k in AsMap([Entry(k, rs)]) && AsMap([Entry(k, rs)])[k] == rs
  {
    assert [Entry(k, rs)][..0] == [];
  }

  /** There is such a leaf. */
  lemma LeafOf(f: File, ht: seq<nat>, h: nat, c: Config, k: Key, rs: seq<RecId>) returns (q: nat)
    requires TreeOk(f, ht, h, c) && Contents(f, Leaves(f, h)) == [Entry(k, rs)]
    ensures q < |Leaves(f, h)| && InRange(Leaves(f, h), q, k)
  {
    hide LeafOk, LeavesOk, Leaves, LeafEntries, TreeOk, InRange;
    LeavesOfTree(f, ht, h, c);
    var j;
    q, j := CatFrom(EntryLists(f, Leaves(f, h)), 0);
    EntryInRange(f, ht, Leaves(f, h), c, q, j);
  }

  /** One more recId is defined as long as there are fewer than 165. */
  lemma OneKeyTakes(f: File, ht: seq<nat>, h: nat, c: Config, k: Key, rs: seq<RecId>)
    requires TreeOk(f, ht, h, c) && c.attrLength == 4 && Contents(f, Leaves(f, h)) == [Entry(k, rs)]
    requires 0 < |rs| < ONE_KEY_RECIDS
    ensures Takes(f, h, k)
  {
    hide LeafOk, Leaves, Contents, TreeOk, InRange, Entries;
    forall q | 0 <= q < |Leaves(f, h)| && InRange(Leaves(f, h), q, k) ensures TakesAt(f, Leaves(f, h), q, k) {
      OneKeyLeaf(f, ht, h, c, k, rs, q);
      var lf := f[Leaves(f, h)[q].page].leaf;
      OneKeySpace(lf, k, rs);
      OneHasKey(k, rs);
    }
  }

  lemma OneHasKey(k: Key, rs: seq<RecId>)
    ensures HasKey([Entry(k, rs)], k) && !HasKey([], k)
  {
    assert [Entry(k, rs)][0].key == k;
  }

  /** With 165 the leaf is full, and its only key cannot be divided. */
  lemma OneKeyFull(lf: Leaf, k: Key, rs: seq<RecId>)
    requires LeafOk(lf) && lf.hdr.attrLength == 4 && Entries(lf) == [Entry(k, rs)] && |rs| == ONE_KEY_RECIDS
    ensures lf.hdr.recIdPtr == AM_SL + RecSize(4)
    ensures !CanTake(lf.hdr, true) && (1, 0) in CompactRanges(lf.hdr, true)
  {
    hide LeafOk, Entries;
    OneKeySpace(lf, k, rs);
    FreeListOf(lf);
    assert CompactRanges(lf.hdr, true)[0] == (1, 0);
  }

  /** Empty again, the leaf has all its bytes in free cells and no room for a slot. */
  lemma OneKeyStranded(lf: Leaf)
    requires LeafOk(lf) && lf.hdr.attrLength == 4 && Entries(lf) == [] && lf.hdr.recIdPtr == AM_SL + RecSize(4)
    ensures Stranded(lf.hdr) && !CanTake(lf.hdr, false) && (1, 0) in CompactRanges(lf.hdr, false)
  {
    hide LeafOk, Entries;
    OneKeySpace(lf, 0, []);
    FreeListOf(lf);
    assert CompactRanges(lf.hdr, false)[0] == (1, 0);
  }

  lemma NotTakes(f: File, h: nat, k: Key, q: nat)
    requires q < |Leaves(f, h)| && InRange(Leaves(f, h), q, k) && IsLeaf(f, Leaves(f, h)[q].page)
    requires var lf := f[Leaves(f, h)[q].page].leaf; LeafOk(lf) ==> !CanTake(lf.hdr, HasKey(Entries(lf), k))
    ensures !Takes(f, h, k)
  {
    hide LeafOk, Leaves, InRange, Entries, CanTake;
    assert !TakesAt(f, Leaves(f, h), q, k);
  }

  /** 165 recIds under one key of a 4-byte attribute: the next insertion splits a leaf into no keys and
      one key. */
  method FillOneKey(k: Key) returns (idx: Index, ghost q: nat)
    ensures fresh(idx) && idx.Valid() && idx.Content() == [Entry(k, CountDown(ONE_KEY_RECIDS))] && idx.stack == []
    ensures idx.c.attrLength == 4 && |idx.pages| < 0x8000_0000 && FullAt(idx.pages, idx.h, k, q)
    ensures !Takes(idx.pages, idx.h, k)
  {
    hide TreeOk, LeftOk, Contents, Leaves, Takes, InsertOn, RoomyFile, AsMap, Lookup;
    var errVal, index := CreateIndex('i', 4, ALL_WELL);
    idx := index;
    var n := 0;
    RoomyTakes(idx.pages, idx.h, k);
    while n < ONE_KEY_RECIDS
      invariant 0 <= n <= ONE_KEY_RECIDS && fresh(idx) && idx.Valid() && idx.stack == [] && idx.c.attrLength == 4
      invariant idx.Content() == (if n == 0 then [] else [Entry(k, CountDown(n))])
      invariant n < ONE_KEY_RECIDS ==> Takes(idx.pages, idx.h, k)
      invariant |idx.pages| <= GROWTH * n + 1
    {
      DepthBound(idx.pages, idx.ht, idx.h, idx.c);
      errVal := idx.InsertEntry(0, 'i', 4, Of(k), n);
      OneKeyInsert(k, n);
      n := n + 1;
      CountDownSize(n);
      if n < ONE_KEY_RECIDS {
        OneKeyTakes(idx.pages, idx.ht, idx.h, idx.c, k, CountDown(n));
      }
    }
    CountDownSize(n);
    q := LeafOf(idx.pages, idx.ht, idx.h, idx.c, k, CountDown(n));
    OneKeyEnd(idx.pages, idx.ht, idx.h, idx.c, k, CountDown(n), q);
  }

  /** The leaf at position q, where k belongs, is full, and its split would compact the range 1..0. */
  ghost predicate FullAt(f: File, h: nat, k: Key, q: nat) {
    && q < |Leaves(f, h)| && InRange(Leaves(f, h), q, k) && IsLeaf(f, Leaves(f, h)[q].page)
    && var hdr := f[Leaves(f, h)[q].page].leaf.hdr;
       hdr.recIdPtr == AM_SL + RecSize(4) && (1, 0) in CompactRanges(hdr, true)
  }

  lemma OneKeyEnd(f: File, ht: seq<nat>, h: nat, c: Config, k: Key, rs: seq<RecId>, q: nat)
    requires TreeOk(f, ht, h, c) && c.attrLength == 4 && Contents(f, Leaves(f, h)) == [Entry(k, rs)]
    requires |rs| == ONE_KEY_RECIDS && q < |Leaves(f, h)| && InRange(Leaves(f, h), q, k)
    ensures FullAt(f, h, k, q) && !Takes(f, h, k)
  {
    hide LeafOk, Leaves, Contents, TreeOk, InRange, Entries, Takes, CanTake, CompactRanges;
    OneKeyLeaf(f, ht, h, c, k, rs, q);
    OneKeyFull(f[Leaves(f, h)[q].page].leaf, k, rs);
    OneHasKey(k, rs);
    NotTakes(f, h, k, q);
  }

  lemma OneKeyInsert(k: Key, n: nat)
    ensures InsertOn(if n == 0 then [] else [Entry(k, CountDown(n))], k, n) == [Entry(k, CountDown(n + 1))]
  {
    assert [n] + CountDown(n) == CountDown(n + 1);
    if n == 0 { assert CountDown(1) == [0]; }
  }

  lemma OneKeyDelete(k: Key, n: nat)
    requires n > 0
    ensures Has([Entry(k, CountDown(n))], k, n - 1)
    ensures DeleteOn([Entry(k, CountDown(n))], k, n - 1) == if n == 1 then [] else [Entry(k, CountDown(n - 1))]
  {
    var rs := CountDown(n);
    assert rs[0] == n - 1 && rs[1..] == CountDown(n - 1);
    assert RemoveFirst(rs, n - 1) == CountDown(n - 1);
    CountDownSize(n - 1);
    assert [Entry(k, rs)][0].key == k && n - 1 in rs;
  }

  /** Deleting them all again leaves that leaf with no key and no room for one, and then the next
      insertion compacts an empty range. */
  method StrandLeaf(k: Key) returns (idx: Index, ghost q: nat)
    ensures idx.Valid() && idx.Content() == [] && !Takes(idx.pages, idx.h, k)
    ensures q < |Leaves(idx.pages, idx.h)| && IsLeaf(idx.pages, Leaves(idx.pages, idx.h)[q].page)
    ensures var hdr := idx.pages[Leaves(idx.pages, idx.h)[q].page].leaf.hdr;
            Stranded(hdr) && (1, 0) in CompactRanges(hdr, false)
  {
    hide TreeOk, LeftOk, Contents, Leaves, Takes, DeleteOn, RoomyFile, CutFrom, InRange, Has, FullAt;
    idx, q := FillOneKey(k);
    var n := ONE_KEY_RECIDS;
    DepthBound(idx.pages, idx.ht, idx.h, idx.c);
    FullIs(idx.pages, idx.h, k, q);
    while n > 0
      invariant 0 <= n <= ONE_KEY_RECIDS && fresh(idx) && idx.Valid() && idx.stack == [] && idx.c.attrLength == 4
      invariant idx.Content() == (if n == 0 then [] else [Entry(k, CountDown(n))])
      invariant idx.h <= 30 && EdgeAt(idx.pages, idx.h, k, q)
    {
      OneKeyDelete(k, n);
      ghost var f := idx.pages;
      var errVal;
      ghost var cut;
      errVal, cut := idx.DeleteEntry(0, 'i', 4, Of(k), n - 1);
      EdgeKept(f, idx.h, k, n - 1, cut, idx.pages, q);
      n := n - 1;
    }
    StrandedEnd(idx.pages, idx.ht, idx.h, idx.c, k, q);
  }

  /** The cells of the leaf at position q, where k belongs, reach down to the first slot. */
  ghost predicate EdgeAt(f: File, h: nat, k: Key, q: nat) {
    && q < |Leaves(f, h)| && InRange(Leaves(f, h), q, k) && IsLeaf(f, Leaves(f, h)[q].page)
    && f[Leaves(f, h)[q].page].leaf.hdr.recIdPtr == AM_SL + RecSize(4)
  }

  lemma FullIs(f: File, h: nat, k: Key, q: nat)
    requires FullAt(f, h, k, q)
    ensures EdgeAt(f, h, k, q)
  {
    hide Leaves, InRange, CompactRanges;
  }

  /** No deletion gives cells back. */
  lemma EdgeKept(f: File, h: nat, k: Key, r: RecId, cut: Cut, g: File, q: nat)
    requires CutFrom(f, h, k, r, cut, g) && EdgeAt(f, h, k, q)
    ensures EdgeAt(g, h, k, q)
  {
    hide Leaves, InRange, LeafOk, Entries, DeleteAt, FirstAt, LayoutOf;
  }

  lemma StrandedEnd(f: File, ht: seq<nat>, h: nat, c: Config, k: Key, q: nat)
    requires TreeOk(f, ht, h, c) && c.attrLength == 4 && Contents(f, Leaves(f, h)) == [] && EdgeAt(f, h, k, q)
    ensures var hdr := f[Leaves(f, h)[q].page].leaf.hdr; Stranded(hdr) && (1, 0) in CompactRanges(hdr, false)
    ensures !Takes(f, h, k)
  {
    hide LeafOk, Leaves, Contents, TreeOk, InRange, Entries, Takes, CanTake, CompactRanges, Stranded;
    OneKeyLeaf(f, ht, h, c, k, [], q);
    OneKeyStranded(f[Leaves(f, h)[q].page].leaf);
    OneHasKey(k, []);
    NotTakes(f, h, k, q);
  }
}
