/** Insertion and deletion as steps from one index file to the next: what an edit or a split
    of the leaf that AM_Search found does to the tree, its contents and its free space. */
module AmUpdate {
  import opened Sequences
  import opened AmEntries
  import opened AmLeafPage
  import opened AmLeafSteps
  import opened AmLeafBuf
  import opened AmHalves
  import opened AmNode
  import opened AmTree
  import opened AmSplit
  import opened AmLeaves
  import opened AmPaths
  import opened AmClimb

  /** maxKeys of AM_CreateIndex: what fits, rounded down to an even number. */
  function MaxKeys(attrLength: int): int
    requires 1 <= attrLength
  {
    var maxKeys := (PF_PAGE_SIZE - AM_SINT - AM_SI) / (AM_SI + attrLength);
    if maxKeys % 2 != 0 then maxKeys - 1 else maxKeys
  }

  lemma MaxKeysOk(attrLength: int)
    requires 1 <= attrLength <= 255
    ensures ConfigOk(Config(attrLength, MaxKeys(attrLength)))
    ensures MaxKeys(attrLength) % 2 == 0 && MaxKeys(attrLength) >= 2
    ensures AM_SINT + AM_SI + MaxKeys(attrLength) * (AM_SI + attrLength) <= PF_PAGE_SIZE
    ensures AM_SINT + AM_SI + (MaxKeys(attrLength) + 2) * (AM_SI + attrLength) > PF_PAGE_SIZE
  {
    var n, d := PF_PAGE_SIZE - AM_SINT - AM_SI, AM_SI + attrLength;
    var q := n / d;
    assert q * d <= n < q * d + d;
    if q <= 1 { MulLe(q, 1, d); }
    if q >= 202 { MulLe(202, q, d); }
    MulLe(MaxKeys(attrLength), q, d);
    MulLe(q + 1, MaxKeys(attrLength) + 2, d);
  }

  lemma MulLe(a: int, b: int, d: int)
    requires a <= b && 0 <= d
    ensures a * d <= b * d
  {
  }

  /** The leaf AM_CreateIndex writes, whatever is in the page apart from its header. */
  ghost predicate FreshLeaf(lf: Leaf, c: Config) {
    && |lf.slots| == MAX_SLOTS && |lf.cells| == PF_PAGE_SIZE
    && lf.hdr == LeafHeader(AM_NULL_PAGE, PF_PAGE_SIZE, AM_SL, AM_NULL, 0, c.attrLength, 0, c.maxKeys)
  }

  lemma FreshLeafOk(lf: Leaf, c: Config)
    requires FreshLeaf(lf, c) && ConfigOk(c)
    ensures LeafOk(lf) && Entries(lf) == []
  {
    var y := Layout([], []);
    assert Cat<int>([]) == [];
    assert LeafAt(lf, y);
    LayoutUnique(lf, y);
  }

  lemma FreshTreeOk(lf: Leaf, c: Config)
    requires FreshLeaf(lf, c) && ConfigOk(c)
    ensures TreeOk([LeafPage(lf)], [0], 0, c) && LeftOk([LeafPage(lf)], 0)
    ensures Contents([LeafPage(lf)], Leaves([LeafPage(lf)], 0)) == []
    ensures RoomyFile([LeafPage(lf)], 0)
  {
    FreshLeafOk(lf, c);
    EmptyLeafRoomy(lf);
    hide LeafOk;
    var f := [LeafPage(lf)];
    var level := RootLevel();
    assert Below(f, level, 0) == level;
    assert LeafOkAt(f, level, 0, c);
    assert EntryLists(f, level) == [[]];
    CatOne<Entry>([]);
  }

  /** The leftmost leaf is page 0 while the root is a leaf and page 2 ever after. */
  ghost predicate LeftOk(f: File, h: nat) {
    && Leaves(f, h) != [] && Leaves(f, h)[0].page == (if h == 0 then 0 else 2)
    && (h == 0 ==> |f| == 1)
  }

  /** Every leaf is roomy: no list is longer than MaxRecIds. */
  ghost predicate RoomyFile(f: File, h: nat) {
    forall i | 0 <= i < |Leaves(f, h)| :: IsLeaf(f, Leaves(f, h)[i].page) && Roomy(f[Leaves(f, h)[i].page].leaf)
  }

  // ---- which insertions are defined ----

  ghost predicate HasKey(es: seq<Entry>, k: Key) {
    exists i | 0 <= i < |es| :: es[i].key == k
  }

  lemma PlaceHasKey(es: seq<Entry>, k: Key, found: bool, i: nat)
    requires IsPlace(es, k, found, i)
    ensures HasKey(es, k) <==> found
  {
    forall x | 0 <= x < |es| && !found ensures es[x].key != k {
      if x < i { assert es[..i][x].key < k; } else { assert k < es[i..][x - i].key; }
    }
  }

  ghost predicate TakesAt(f: File, level: seq<Item>, q: nat, k: Key)
    requires q < |level|
  {
    && IsLeaf(f, level[q].page)
    && var lf := f[level[q].page].leaf; LeafOk(lf) && CanTake(lf.hdr, HasKey(Entries(lf), k))
  }

  /** The leaf that k belongs to can take it. */
  ghost predicate Takes(f: File, h: nat, k: Key) {
    forall q | 0 <= q < |Leaves(f, h)| && InRange(Leaves(f, h), q, k) :: TakesAt(f, Leaves(f, h), q, k)
  }

  /** In a file of roomy leaves every insertion is defined. */
  lemma RoomyTakes(f: File, h: nat, k: Key)
    requires RoomyFile(f, h)
    ensures Takes(f, h, k)
  {
    hide InRange, Leaves;
    forall q | 0 <= q < |Leaves(f, h)| && InRange(Leaves(f, h), q, k) ensures TakesAt(f, Leaves(f, h), q, k) {
      var lf := f[Leaves(f, h)[q].page].leaf;
      LeafSpace(lf);
      RoomyCanTake(lf, HasKey(Entries(lf), k));
    }
  }

  // ---- one leaf edited ----

  lemma LeafEdited(f: File, ht: seq<nat>, h: nat, c: Config, q: nat, lf: Leaf)
    requires TreeOk(f, ht, h, c) && LeftOk(f, h) && q < |Leaves(f, h)|
    requires LeafOk(lf) && KeysFit(Leaves(f, h), q, Entries(lf))
    requires IsLeaf(f, Leaves(f, h)[q].page) && SameLeaf(lf.hdr, f[Leaves(f, h)[q].page].leaf.hdr)
    ensures var p := Leaves(f, h)[q].page;
            var f1 := f[p := LeafPage(lf)];
            && TreeOk(f1, ht, h, c) && LeftOk(f1, h) && Leaves(f1, h) == Leaves(f, h)
            && Contents(f1, Leaves(f1, h)) == Before(f, Leaves(f, h), q) + Entries(lf) + After(f, Leaves(f, h), q)
            && (RoomyFile(f, h) && Roomy(lf) ==> RoomyFile(f1, h))
  {
    hide LeafOk, KeysFit, InRange, TreeOk, Leaves, Contents, Before, After, LeavesOk, Roomy, RoomyFile, Entries,
         NextPage;
    var level := Leaves(f, h);
    LeavesOfTree(f, ht, h, c);
    LeafFits(f, ht, level, c, q);
    FitsKeys(level, q, c, f[level[q].page].leaf);
    FitsByKeys(level, q, c, lf);
    LeafChanged(f, ht, h, c, q, lf);
    PlacedLeaves(f, ht, level, c);
    EditedRoomy(f, ht, h, q, lf);
  }

  lemma EditedRoomy(f: File, ht: seq<nat>, h: nat, q: nat, lf: Leaf)
    requires q < |Leaves(f, h)| && Placed(f, ht, Leaves(f, h), 0)
    ensures var f1 := f[Leaves(f, h)[q].page := LeafPage(lf)];
            Leaves(f1, h) == Leaves(f, h) && RoomyFile(f, h) && Roomy(lf) ==> RoomyFile(f1, h)
  {
    hide Leaves, Roomy;
    var level := Leaves(f, h);
    var f1 := f[level[q].page := LeafPage(lf)];
    if Leaves(f1, h) == level && RoomyFile(f, h) && Roomy(lf) {
      forall i | 0 <= i < |level| ensures IsLeaf(f1, level[i].page) && Roomy(f1[level[i].page].leaf) {
        if i != q { assert level[i].page != level[q].page; }
      }
    }
  }

  lemma InsertedInLeaf(f: File, ht: seq<nat>, h: nat, c: Config, q: nat, k: Key, r: RecId, found: bool, i: nat,
          lf: Leaf)
    requires TreeOk(f, ht, h, c) && LeftOk(f, h) && q < |Leaves(f, h)| && InRange(Leaves(f, h), q, k)
    requires IsLeaf(f, Leaves(f, h)[q].page) && SameLeaf(lf.hdr, f[Leaves(f, h)[q].page].leaf.hdr)
    requires LeafOk(f[Leaves(f, h)[q].page].leaf) && LeafOk(lf)
    requires var es := Entries(f[Leaves(f, h)[q].page].leaf);
             IsPlace(es, k, found, i) && Entries(lf) == InsertAt(es, i, found, k, r)
    ensures var f1 := f[Leaves(f, h)[q].page := LeafPage(lf)];
            && TreeOk(f1, ht, h, c) && LeftOk(f1, h)
            && Contents(f1, Leaves(f1, h)) == InsertOn(Contents(f, Leaves(f, h)), k, r)
            && (RoomyFile(f, h) && Roomy(lf) ==> RoomyFile(f1, h))
  {
    hide LeafOk, KeysFit, InRange, UpperOk, Down, Contents, Before, After, LeavesOk, RoomyFile, LeftOk, Leaves,
         InsertAt, IsPlace, Roomy;
    var level := Leaves(f, h);
    LeavesOfTree(f, ht, h, c);
    LeafFits(f, ht, level, c, q);
    var es := Entries(f[level[q].page].leaf);
    FitsKeys(level, q, c, f[level[q].page].leaf);
    InsertKeysFit(level, q, es, found, i, k, r);
    LeafEdited(f, ht, h, c, q, lf);
    InsertHere(f, ht, h, c, q, es, found, i, k, r);
  }

  lemma LeavesOfTree(f: File, ht: seq<nat>, h: nat, c: Config)
    requires TreeOk(f, ht, h, c)
    ensures LeavesOk(f, ht, Leaves(f, h), c)
  {
  }

  lemma DeletedInLeaf(f: File, ht: seq<nat>, h: nat, c: Config, q: nat, k: Key, r: RecId, i: nat, lf: Leaf)
    requires TreeOk(f, ht, h, c) && LeftOk(f, h) && q < |Leaves(f, h)| && InRange(Leaves(f, h), q, k)
    requires IsLeaf(f, Leaves(f, h)[q].page) && SameLeaf(lf.hdr, f[Leaves(f, h)[q].page].leaf.hdr)
    requires LeafOk(f[Leaves(f, h)[q].page].leaf) && LeafOk(lf)
    requires var es := Entries(f[Leaves(f, h)[q].page].leaf);
             IsPlace(es, k, true, i) && Entries(lf) == DeleteAt(es, i, r)
    ensures var f1 := f[Leaves(f, h)[q].page := LeafPage(lf)];
            && TreeOk(f1, ht, h, c) && LeftOk(f1, h) && Leaves(f1, h) == Leaves(f, h)
            && Contents(f1, Leaves(f1, h)) == DeleteOn(Contents(f, Leaves(f, h)), k, r)
            && (RoomyFile(f, h) && Roomy(lf) ==> RoomyFile(f1, h))
  {
    hide LeafOk, KeysFit, InRange, UpperOk, Down, Contents, Before, After, LeavesOk, RoomyFile, LeftOk, Leaves,
         DeleteAt, Roomy;
    var level := Leaves(f, h);
    LeavesOfTree(f, ht, h, c);
    LeafFits(f, ht, level, c, q);
    var es := Entries(f[level[q].page].leaf);
    FitsKeys(level, q, c, f[level[q].page].leaf);
    DeleteKeysFit(level, q, es, i, r);
    LeafEdited(f, ht, h, c, q, lf);
    DeleteHere(f, ht, h, c, q, es, i, k, r);
  }

  // ---- room after an edit ----

  lemma RoomyInsert(lf: Leaf, t: Leaf, found: bool, i: nat, k: Key, r: RecId)
    requires Roomy(lf) && LeafOk(t) && SameLeaf(t.hdr, lf.hdr) && IsPlace(Entries(lf), k, found, i)
    requires Entries(t) == InsertAt(Entries(lf), i, found, k, r)
    requires found ==> |Entries(lf)[i].recIds| < MaxRecIds(lf.hdr.attrLength)
    requires t.hdr.recIdPtr >= lf.hdr.recIdPtr || t.hdr.freeListPtr == AM_NULL
    ensures Roomy(t)
  {
    hide LeafOk, Entries, IsPlace, InsertAt, ShortLists, Weight, SlotBytes, NoEmptyList;
    LeafSpace(lf);
    LeafSpace(t);
    PlaceIn(Entries(lf), k, found, i);
    InsertShort(Entries(lf), found, i, k, r, MaxRecIds(lf.hdr.attrLength));
    Nonempty(Entries(t));
    if t.hdr.recIdPtr < lf.hdr.recIdPtr {
      RoomyIfNoFree(t);
    }
  }

  lemma Nonempty(es: seq<Entry>)
    ensures es != [] <==> |es| >= 1
  {
  }

  lemma InsertShort(es: seq<Entry>, found: bool, i: nat, k: Key, r: RecId, max: int)
    requires IsPlace(es, k, found, i) && ShortLists(es, max) && 1 <= max && (found ==> |es[i].recIds| < max)
    ensures ShortLists(InsertAt(es, i, found, k, r), max) && InsertAt(es, i, found, k, r) != []
  {
    var t := InsertAt(es, i, found, k, r);
    forall j | 0 <= j < |t| ensures |t[j].recIds| <= max {
      if j != i { assert t[j] == es[if found || j < i then j else j - 1]; }
    }
  }

  lemma RoomyDelete(lf: Leaf, t: Leaf, i: nat, r: RecId, p: nat)
    requires Roomy(lf) && Deleted(lf, t, i, p) && i < |Entries(lf)| && Entries(t) == DeleteAt(Entries(lf), i, r)
    requires FirstAt(Entries(lf)[i].recIds, r, p)
    ensures Roomy(t)
  {
    hide LeafOk;
    RemoveFirstAt(Entries(lf)[i].recIds, r, p);
    RemoveAtIndex(Entries(lf)[i].recIds, p);
  }

  // ---- a leaf split ----

  /** left and right, the latter on the next new page, hold the entries es where the leaf at
      position q stood, and have no free cells. */
  ghost predicate SplitOf(level: seq<Item>, q: nat, c: Config, left: Leaf, right: Leaf, key: Key, r: int,
          es: seq<Entry>)
    requires q < |level|
  {
    && SplitFits(level, q, c, left, right, key, r)
    && Entries(left) + Entries(right) == es
    && left.hdr.freeListPtr == AM_NULL && right.hdr.freeListPtr == AM_NULL
  }

  lemma NextChanged(lf: Leaf, n: int)
    requires LeafOk(lf)
    ensures var t := lf.(hdr := lf.hdr.(nextLeafPage := n)); LeafOk(t) && Entries(t) == Entries(lf)
  {
    hide Counted, ListsOk, IsChain, ChainOf;
    var t := lf.(hdr := lf.hdr.(nextLeafPage := n));
    assert LayoutOf(t) == LayoutOf(lf);
    NextCounted(lf.hdr, LayoutOf(lf), n);
  }

  lemma NextCounted(h: LeafHeader, y: Layout, n: int)
    ensures Counted(h.(nextLeafPage := n), y) == Counted(h, y)
  {
    hide LastCells;
  }

  /** What the two halves made by AM_SplitLeaf are, once chained. */
  lemma HalvesSplit(f: File, ht: seq<nat>, level: seq<Item>, c: Config, q: nat, k: Key, r: RecId, found: bool, i: nat,
                    a: Leaf, right: Leaf, key: Key)
    requires LeavesOk(f, ht, level, c) && q < |level| && InRange(level, q, k) && IsLeaf(f, level[q].page)
    requires var lf := f[level[q].page].leaf;
             && LeafOk(lf) && IsPlace(Entries(lf), k, found, i)
             && HalvesOf(InsertAt(Entries(lf), i, found, k, r), a, right, key)
             && HalfPost(a.hdr, lf.hdr) && HalfPost(right.hdr, lf.hdr)
    ensures var left := a.(hdr := a.hdr.(nextLeafPage := |f|));
            SplitOf(level, q, c, left, right, key, |f|, InsertAt(Entries(f[level[q].page].leaf), i, found, k, r))
  {
    hide LeafOk, Entries, LeavesOk, InRange, KeysFit, InsertAt;
    var lf := f[level[q].page].leaf;
    LeafFits(f, ht, level, c, q);
    FitsKeys(level, q, c, lf);
    InsertKeysFit(level, q, Entries(lf), found, i, k, r);
    NextChanged(a, |f|);
    var left := a.(hdr := a.hdr.(nextLeafPage := |f|));
    HalvesFit(level, q, c, InsertAt(Entries(lf), i, found, k, r), left, right, key, |f|);
  }

  lemma SplitRoomy(level: seq<Item>, q: nat, c: Config, left: Leaf, right: Leaf, key: Key, r: int, es: seq<Entry>)
    requires q < |level| && SplitOf(level, q, c, left, right, key, r, es) && ShortLists(es, MaxRecIds(c.attrLength))
    ensures Roomy(left) && Roomy(right)
  {
    hide LeafOk, InRange, Sorted, ShortLists, Entries, AllBelow, NextPage;
    ShortParts(Entries(left), Entries(right), MaxRecIds(c.attrLength));
    LeafSpace(left);
    LeafSpace(right);
    RoomyIfNoFree(left);
    RoomyIfNoFree(right);
  }

  lemma ShortParts(a: seq<Entry>, b: seq<Entry>, max: int)
    requires ShortLists(a + b, max)
    ensures ShortLists(a, max) && ShortLists(b, max)
  {
    forall j | 0 <= j < |a| ensures |a[j].recIds| <= max { assert a[j] == (a + b)[j]; }
    forall j | 0 <= j < |b| ensures |b[j].recIds| <= max { assert b[j] == (a + b)[|a| + j]; }
  }

  /** The climb starts from the leaf level with the path the search left on the stack. */
  lemma StartClimb(f: File, ht: seq<nat>, h: nat, c: Config, q: nat, left: Leaf, right: Leaf, key: Key,
                   frames: seq<Frame>, pos: seq<nat>, es: seq<Entry>)
    requires TreeOk(f, ht, h, c) && h >= 1 && q < |Leaves(f, h)|
    requires SplitOf(Leaves(f, h), q, c, left, right, key, |f|, es)
    requires PathOk(f, frames, pos) && |frames| == h && |pos| == h + 1 && pos[h] == q
    ensures 0 <= Leaves(f, h)[q].page < |f|
    ensures var f1, ht1 := f[Leaves(f, h)[q].page := LeafPage(left)] + [LeafPage(right)], ht + [0];
            && Climb(f1, ht1, h, c, frames, pos, key, |f|)
            && ClimbLeaves(f1, h, frames, pos, key, |f|) == PendingLeaves(f1, h, h, q, key, |f|)
  {
    hide SplitFits, Leaves, PathOk, Pending, Extends, PendingLeaves, LeavesOk;
    LeafSplits(f, ht, h, c, q, left, right, key);
    var f1, ht1 := f[Leaves(f, h)[q].page := LeafPage(left)] + [LeafPage(right)], ht + [0];
    PathFrame(f, ht, f1, ht1, h, c, h, frames, pos);
  }

  lemma SameContents(f: File, g: File, level: seq<Item>)
    requires SameOn(f, g, level)
    ensures EntryLists(g, level) == EntryLists(f, level) && Contents(g, level) == Contents(f, level)
  {
    hide LeafOk;
  }

  /** Lists of different leaves: what the leaves of the split tree are. */
  lemma SplitFileRoomy(f: File, ht: seq<nat>, h: nat, q: nat, left: Leaf, right: Leaf, key: Key, f1: File, g: File,
          gh: nat)
    requires RoomyFile(f, h) && Roomy(left) && Roomy(right)
    requires q < |Leaves(f, h)| && Placed(f, ht, Leaves(f, h), 0)
    requires f1 == f[Leaves(f, h)[q].page := LeafPage(left)] + [LeafPage(right)]
    requires Leaves(g, gh) == AddAfter(Leaves(f, h), q, Item(|f|, At(key))) && SameOn(f1, g, Leaves(g, gh))
    ensures RoomyFile(g, gh)
  {
    hide Leaves, Roomy;
    var level, t := Leaves(f, h), Leaves(g, gh);
    forall i | 0 <= i < |t| ensures IsLeaf(g, t[i].page) && Roomy(g[t[i].page].leaf) {
      assert g[t[i].page] == f1[t[i].page];
      var x := if i <= q then i else i - 1;
      if i != q + 1 && x != q {
        assert level[x].page != level[q].page;
        assert IsLeaf(f, level[x].page);
      }
    }
  }

  /** Leaf split and climb together insert the pair. */
  lemma SplitClimbed(f: File, ht: seq<nat>, h: nat, c: Config, q: nat, k: Key, r: RecId, es: seq<Entry>,
                     left: Leaf, right: Leaf, key: Key, f1: File, g: File, gt: seq<nat>, gh: nat)
    requires TreeOk(f, ht, h, c) && LeftOk(f, h) && h >= 1 && q < |Leaves(f, h)|
    requires SplitOf(Leaves(f, h), q, c, left, right, key, |f|, es)
    requires Before(f, Leaves(f, h), q) + es + After(f, Leaves(f, h), q) == InsertOn(Contents(f, Leaves(f, h)), k, r)
    requires 0 <= Leaves(f, h)[q].page < |f|
    requires f1 == f[Leaves(f, h)[q].page := LeafPage(left)] + [LeafPage(right)]
    requires Climbed(f1, ht + [0], g, gt, gh, c, PendingLeaves(f1, h, h, q, key, |f|))
    ensures TreeOk(g, gt, gh, c) && LeftOk(g, gh)
    ensures Contents(g, Leaves(g, gh)) == InsertOn(Contents(f, Leaves(f, h)), k, r)
    ensures RoomyFile(f, h) && ShortLists(es, MaxRecIds(c.attrLength)) ==> RoomyFile(g, gh)
  {
    hide SplitFits, Leaves, Contents, Before, After, InsertOn, RoomyFile, Roomy, PendingLeaves, ShortLists,
         AddAfter, LeafOk;
    LeafSplits(f, ht, h, c, q, left, right, key);
    LeavesOfTree(f, ht, h, c);
    PendingPlaced(f1, ht + [0], h, c, q, key, |f|);
    hide TreeOk, LeavesOk, Pending;
    var t := AddAfter(Leaves(f, h), q, Item(|f|, At(key)));
    PlacedFrame(f1, ht + [0], g, gt, 0, 0, t, 0);
    SameContents(f1, g, t);
    AddAfterFirst(Leaves(f, h), q, Item(|f|, At(key)));
    if RoomyFile(f, h) && ShortLists(es, MaxRecIds(c.attrLength)) {
      SplitRoomy(Leaves(f, h), q, c, left, right, key, |f|, es);
      PlacedLeaves(f, ht, Leaves(f, h), c);
      SplitFileRoomy(f, ht, h, q, left, right, key, f1, g, gh);
    }
  }

  lemma AddAfterFirst(level: seq<Item>, q: nat, it: Item)
    requires q < |level|
    ensures AddAfter(level, q, it)[0] == level[0]
  {
  }

  lemma PlacedLeaves(f: File, ht: seq<nat>, level: seq<Item>, c: Config)
    requires LeavesOk(f, ht, level, c)
    ensures Placed(f, ht, level, 0)
  {
  }

  lemma PendingPlaced(f: File, ht: seq<nat>, h: nat, c: Config, x: nat, k: Key, r: int)
    requires Pending(f, ht, h, h, c, x, k, r)
    ensures Placed(f, ht, PendingLeaves(f, h, h, x, k, r), 0)
  {
    hide Placed, LowersRise, LeafOkAt, UpperOk;
  }

  /** A split of the root leaf inserts the pair. */
  lemma SplitRootLeaf(f: File, ht: seq<nat>, c: Config, k: Key, r: RecId, es: seq<Entry>, left: Leaf, right: Leaf,
          key: Key, g: File, gt: seq<nat>)
    requires TreeOk(f, ht, 0, c) && LeftOk(f, 0) && |Leaves(f, 0)| > 0 && |ht| > 0
    requires SplitOf(Leaves(f, 0), 0, c, left, right, key, |f|, es)
    requires Before(f, Leaves(f, 0), 0) + es + After(f, Leaves(f, 0), 0) == InsertOn(Contents(f, Leaves(f, 0)), k, r)
    requires g == f[0 := IntPage(Node(c.maxKeys, c.attrLength, |f| + 1, [Pair(key, |f|)]))]
                  + [LeafPage(right), LeafPage(left)]
    requires gt == ht[0 := 1] + [0, 0]
    ensures TreeOk(g, gt, 1, c) && LeftOk(g, 1)
    ensures Contents(g, Leaves(g, 1)) == InsertOn(Contents(f, Leaves(f, 0)), k, r)
    ensures ShortLists(es, MaxRecIds(c.attrLength)) ==> RoomyFile(g, 1)
  {
    hide SplitFits, Contents, InsertOn, Roomy, ShortLists, TreeOk, LeafOk, EntryLists, Entries, Before, After, Down;
    assert Leaves(f, 0) == RootLevel();
    RootLeafSplits(f, ht, c, left, right, key);
    RootSides(f);
    assert [] + es + [] == es;
    if ShortLists(es, MaxRecIds(c.attrLength)) {
      SplitRoomy(Leaves(f, 0), 0, c, left, right, key, |f|, es);
    }
  }

  lemma RootSides(f: File)
    ensures Before(f, RootLevel(), 0) == [] && After(f, RootLevel(), 0) == []
  {
    hide LeafEntries;
  }

  // ---- the steps of AM_InsertEntry ----

  lemma RootFacts(f: File, ht: seq<nat>, h: nat, c: Config)
    requires TreeOk(f, ht, h, c)
    ensures |ht| == |f| > 0 && (h == 0 <==> f[0].LeafPage?)
    ensures f[0].LeafPage? ==> f[0].leaf.hdr.attrLength == c.attrLength
    ensures f[0].IntPage? ==> f[0].node.attrLength == c.attrLength
  {
    hide LeafOk, Down;
    var level := RootLevel();
    assert Below(f, level, 0) == level;
    if h > 0 {
      assert InnerOk(f, ht, Below(f, level, 0), h, c, MinAt(0, c));
      PageInFile(f, ht, level, h, 0);
    } else {
      LeafFits(f, ht, level, c, 0);
    }
  }

  lemma LeafPlace(lf: Leaf, k: Key, found: bool, i: nat)
    requires LeafOk(lf) && IsPlace(Entries(lf), k, found, i)
    ensures if found then i < lf.hdr.numKeys && i < |lf.slots| && lf.slots[i].key == k else i <= lf.hdr.numKeys
  {
    EntryKeys(lf);
  }

  /** Of the leaf that the search found: it can take the entry. */
  lemma InsertStart(f: File, h: nat, q: nat, k: Key, found: bool, i: nat, lf: Leaf)
    requires Takes(f, h, k) && q < |Leaves(f, h)| && InRange(Leaves(f, h), q, k)
    requires IsLeaf(f, Leaves(f, h)[q].page) && f[Leaves(f, h)[q].page].leaf == lf && LeafOk(lf)
    requires IsPlace(Entries(lf), k, found, i)
    ensures if found then i < lf.hdr.numKeys && i < |lf.slots| && lf.slots[i].key == k else i <= lf.hdr.numKeys
    ensures !Stranded(lf.hdr)
    ensures FreeBytes(lf.hdr) < Need(lf.hdr, found) ==> lf.hdr.numKeys >= 2
  {
    hide LeafOk, InRange, IsPlace, Entries, Leaves;
    LeafPlace(lf, k, found, i);
    PlaceHasKey(Entries(lf), k, found, i);
    assert TakesAt(f, Leaves(f, h), q, k);
  }

  /** A leaf's page is page 0 only if it is the root. */
  lemma LeafOfTree(f: File, ht: seq<nat>, h: nat, c: Config, q: nat)
    requires TreeOk(f, ht, h, c) && q < |Leaves(f, h)|
    ensures IsLeaf(f, Leaves(f, h)[q].page)
    ensures Leaves(f, h)[q].page == 0 <==> h == 0
    ensures h == 0 ==> q == 0
    ensures |ht| == |f| > 0 && 1 <= c.maxKeys <= MAX_PAIRS
    ensures var lf := f[Leaves(f, h)[q].page].leaf; lf.hdr.maxKeys == c.maxKeys && lf.hdr.attrLength == c.attrLength
  {
    hide LeafOk, InRange, Entries, UpperOk, Down;
    LeafFits(f, ht, Leaves(f, h), c, q);
    RootFacts(f, ht, h, c);
  }

  lemma LookupHere(f: File, ht: seq<nat>, h: nat, c: Config, q: nat, k: Key, found: bool, i: nat, es: seq<Entry>)
    requires TreeOk(f, ht, h, c) && q < |Leaves(f, h)| && InRange(Leaves(f, h), q, k)
    requires es == LeafEntries(f, Leaves(f, h)[q].page) && IsPlace(es, k, found, i)
    ensures found <==> k in AsMap(Contents(f, Leaves(f, h)))
    ensures Lookup(AsMap(Contents(f, Leaves(f, h))), k) == if found then es[i].recIds else []
  {
    hide Contents, Before, After, LeafEntries, InRange, LeavesOk, TreeOk, Leaves, AsMap, Lookup, IsPlace, Sorted,
         NoEmptyList;
    var level := Leaves(f, h);
    LeavesOfTree(f, ht, h, c);
    SidesApart(f, ht, level, c, q, k);
    ContentsAround(f, level, q);
    ContentsSorted(f, ht, level, c);
    PlaceIn(es, k, found, i);
    LookupIn(Before(f, level, q), es, After(f, level, q), k, found, i);
  }

  lemma LookupIn(a: seq<Entry>, es: seq<Entry>, b: seq<Entry>, k: Key, found: bool, i: nat)
    requires Sorted(a + es + b) && AllBelow(a, k) && AllAbove(b, k) && IsPlace(es, k, found, i)
    ensures found <==> k in AsMap(a + es + b)
    ensures Lookup(AsMap(a + es + b), k) == if found then es[i].recIds else []
  {
    hide AsMap, Sorted;
    var all := a + es + b;
    if found {
      PlaceIn(es, k, found, i);
      assert all[|a| + i] == es[i];
      AsMapHit(all, |a| + i);
    } else {
      PlaceHasKey(es, k, found, i);
      forall y | 0 <= y < |all| ensures all[y].key != k {
        assert all[y] == if y < |a| then a[y] else if y < |a| + |es| then es[y - |a|] else b[y - |a| - |es|];
      }
      AsMapMiss(all, k);
    }
  }

  /** The entry went into the leaf. */
  lemma InsertDone(f: File, ht: seq<nat>, h: nat, c: Config, q: nat, k: Key, r: RecId, found: bool, i: nat, t: Leaf)
    requires TreeOk(f, ht, h, c) && LeftOk(f, h) && q < |Leaves(f, h)| && InRange(Leaves(f, h), q, k)
    requires IsLeaf(f, Leaves(f, h)[q].page) && SameLeaf(t.hdr, f[Leaves(f, h)[q].page].leaf.hdr)
    requires LeafOk(f[Leaves(f, h)[q].page].leaf) && LeafOk(t)
    requires var lf := f[Leaves(f, h)[q].page].leaf;
             && IsPlace(Entries(lf), k, found, i) && Entries(t) == InsertAt(Entries(lf), i, found, k, r)
             && (t.hdr.recIdPtr >= lf.hdr.recIdPtr || t.hdr.freeListPtr == AM_NULL)
    ensures var f1 := f[Leaves(f, h)[q].page := LeafPage(t)];
            && TreeOk(f1, ht, h, c) && LeftOk(f1, h)
            && Contents(f1, Leaves(f1, h)) == InsertOn(Contents(f, Leaves(f, h)), k, r)
            && (RoomyFile(f, h) && |Lookup(AsMap(Contents(f, Leaves(f, h))), k)| < MaxRecIds(c.attrLength)
                ==> RoomyFile(f1, h))
  {
    hide LeafOk, Entries, InRange, TreeOk, LeftOk, Contents, InsertOn, Roomy, AsMap, Lookup, Leaves, InsertAt,
         MaxRecIds;
    var lf := f[Leaves(f, h)[q].page].leaf;
    InsertedInLeaf(f, ht, h, c, q, k, r, found, i, t);
    if RoomyFile(f, h) && |Lookup(AsMap(Contents(f, Leaves(f, h))), k)| < MaxRecIds(c.attrLength) {
      LookupHere(f, ht, h, c, q, k, found, i, Entries(lf));
      LeavesOfTree(f, ht, h, c);
      LeafFits(f, ht, Leaves(f, h), c, q);
      RoomyInsert(lf, t, found, i, k, r);
    }
  }

  /** left and right hold what lf held with (k, r) in it, key divides them, and their headers
      are that of lf but for counts and pointers. */
  ghost predicate Parted(lf: Leaf, k: Key, r: RecId, found: bool, i: nat, left: Leaf, right: Leaf, key: Key) {
    && LeafOk(lf) && IsPlace(Entries(lf), k, found, i)
    && HalvesOf(InsertAt(Entries(lf), i, found, k, r), left, right, key)
    && HalfPost(left.hdr, lf.hdr) && HalfPost(right.hdr, lf.hdr)
  }

  /** The file after AM_SplitLeaf: the right half is on the first new page; the left half,
      chained to it, stays, or goes to the second one when page 0 becomes the node over both. */
  ghost function PartedFile(f: File, p: int, h: LeafHeader, left: Leaf, right: Leaf, key: Key): File
    requires IsLeaf(f, p)
  {
    var a := left.(hdr := left.hdr.(nextLeafPage := |f|));
    if p != AM_ROOT then f[p := LeafPage(a)] + [LeafPage(right)]
    else f[0 := IntPage(Node(h.maxKeys, h.attrLength, |f| + 1, [Pair(key, |f|)]))] + [LeafPage(right), LeafPage(a)]
  }

  /** The leaf was split: what the halves are, and that with them the pair is in the contents. */
  lemma SplitStart(f: File, ht: seq<nat>, h: nat, c: Config, q: nat, k: Key, r: RecId, found: bool, i: nat,
                   a: Leaf, right: Leaf, key: Key) returns (es: seq<Entry>)
    requires TreeOk(f, ht, h, c) && q < |Leaves(f, h)| && InRange(Leaves(f, h), q, k) && IsLeaf(f, Leaves(f, h)[q].page)
    requires Parted(f[Leaves(f, h)[q].page].leaf, k, r, found, i, a, right, key)
    ensures SplitOf(Leaves(f, h), q, c, a.(hdr := a.hdr.(nextLeafPage := |f|)), right, key, |f|, es)
    ensures var level := Leaves(f, h);
            Before(f, level, q) + es + After(f, level, q) == InsertOn(Contents(f, level), k, r)
    ensures RoomyFile(f, h) && |Lookup(AsMap(Contents(f, Leaves(f, h))), k)| < MaxRecIds(c.attrLength)
            ==> ShortLists(es, MaxRecIds(c.attrLength))
  {
    hide LeafOk, InRange, HalvesOf, LeavesOk, Leaves, SplitOf, HalfPost, InsertAt, IsPlace, InsertOn, Before, After,
         ShortLists, AsMap, Lookup, MaxRecIds, Contents;
    var level := Leaves(f, h);
    var lf := f[level[q].page].leaf;
    LeavesOfTree(f, ht, h, c);
    LeafFits(f, ht, level, c, q);
    hide Entries;
    HalvesSplit(f, ht, level, c, q, k, r, found, i, a, right, key);
    PlaceIn(Entries(lf), k, found, i);
    es := InsertAt(Entries(lf), i, found, k, r);
    InsertHere(f, ht, h, c, q, Entries(lf), found, i, k, r);
    if RoomyFile(f, h) && |Lookup(AsMap(Contents(f, level)), k)| < MaxRecIds(c.attrLength) {
      LookupHere(f, ht, h, c, q, k, found, i, Entries(lf));
      MaxRecIdsFacts(c);
      InsertShort(Entries(lf), found, i, k, r, MaxRecIds(c.attrLength));
    }
  }

  lemma MaxRecIdsFacts(c: Config)
    requires ConfigOk(c)
    ensures MaxRecIds(c.attrLength) >= 1
  {
  }

  lemma PlaceIn(es: seq<Entry>, k: Key, found: bool, i: nat)
    requires IsPlace(es, k, found, i)
    ensures if found then i < |es| else i <= |es|
  {
  }

  // ---- the steps of AM_DeleteEntry ----

  lemma HasHere(f: File, ht: seq<nat>, h: nat, c: Config, q: nat, k: Key, r: RecId, found: bool, i: nat, lf: Leaf)
    requires TreeOk(f, ht, h, c) && q < |Leaves(f, h)| && InRange(Leaves(f, h), q, k)
    requires IsLeaf(f, Leaves(f, h)[q].page) && f[Leaves(f, h)[q].page].leaf == lf && LeafOk(lf)
    requires IsPlace(Entries(lf), k, found, i)
    ensures Has(Contents(f, Leaves(f, h)), k, r) <==> found && i < |Entries(lf)| && r in Entries(lf)[i].recIds
  {
    hide LeafOk, InRange, Contents, UpperOk, LeavesOk, AsMap, Entries, Leaves;
    PlaceIn(Entries(lf), k, found, i);
    hide IsPlace;
    LookupHere(f, ht, h, c, q, k, found, i, Entries(lf));
    LeavesOfTree(f, ht, h, c);
    ContentsSorted(f, ht, Leaves(f, h), c);
    HasByLookup(Contents(f, Leaves(f, h)), k, r);
  }

  lemma HasByLookup(es: seq<Entry>, k: Key, r: RecId)
    requires Sorted(es)
    ensures Has(es, k, r) <==> r in Lookup(AsMap(es), k)
  {
    var found, i := MapAt(es, k);
    if found {
      forall j | 0 <= j < |es| && j != i ensures es[j].key != k {
      }
    }
  }

  /** Where a deletion took its recId: the p-th of the i-th key of the q-th leaf. */
  datatype Cut = Cut(q: nat, i: nat, p: nat)

  /** g is f after the p-th recId of key i of leaf q, the first r of key k, was deleted. */
  ghost predicate CutFrom(f: File, h: nat, k: Key, r: RecId, cut: Cut, g: File) {
    && cut.q < |Leaves(f, h)| && Leaves(g, h) == Leaves(f, h)
    && var page := Leaves(f, h)[cut.q].page;
       && IsLeaf(f, page) && IsLeaf(g, page) && g == f[page := g[page]]
       && Deleted(f[page].leaf, g[page].leaf, cut.i, cut.p)
       && cut.i < |Entries(f[page].leaf)|
       && var e := Entries(f[page].leaf)[cut.i];
          && e.key == k && FirstAt(e.recIds, r, cut.p)
          && Entries(g[page].leaf) == DeleteAt(Entries(f[page].leaf), cut.i, r)
  }

  lemma DeleteDone(f: File, ht: seq<nat>, h: nat, c: Config, q: nat, k: Key, r: RecId, i: nat, p: nat, t: Leaf)
    requires TreeOk(f, ht, h, c) && LeftOk(f, h) && q < |Leaves(f, h)| && InRange(Leaves(f, h), q, k)
    requires IsLeaf(f, Leaves(f, h)[q].page) && LeafOk(f[Leaves(f, h)[q].page].leaf)
    requires var lf := f[Leaves(f, h)[q].page].leaf;
             && IsPlace(Entries(lf), k, true, i) && Deleted(lf, t, i, p) && i < |Entries(lf)|
             && FirstAt(Entries(lf)[i].recIds, r, p) && Entries(t) == DeleteAt(Entries(lf), i, r)
    ensures var f1 := f[Leaves(f, h)[q].page := LeafPage(t)];
            && TreeOk(f1, ht, h, c) && LeftOk(f1, h) && CutFrom(f, h, k, r, Cut(q, i, p), f1)
            && Contents(f1, Leaves(f1, h)) == DeleteOn(Contents(f, Leaves(f, h)), k, r)
            && (RoomyFile(f, h) ==> RoomyFile(f1, h))
  {
    hide LeafOk, Entries, InRange, TreeOk, LeftOk, Contents, DeleteOn, Roomy, Leaves, DeleteAt, FirstAt;
    var lf := f[Leaves(f, h)[q].page].leaf;
    DeletedSame(lf, t, i, p);
    PlaceKey(Entries(lf), k, i);
    hide Deleted, IsPlace;
    DeletedInLeaf(f, ht, h, c, q, k, r, i, t);
    if RoomyFile(f, h) {
      RoomyDelete(lf, t, i, r, p);
    }
  }

  lemma DeletedSame(lf: Leaf, t: Leaf, i: nat, p: nat)
    requires Deleted(lf, t, i, p)
    ensures LeafOk(t) && SameLeaf(t.hdr, lf.hdr)
  {
    hide LeafOk;
  }

  lemma PlaceKey(es: seq<Entry>, k: Key, i: nat)
    requires IsPlace(es, k, true, i)
    ensures i < |es| && es[i].key == k
  {
  }
}
