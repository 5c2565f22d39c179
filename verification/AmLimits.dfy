/** Calls on a valid index that amlayer does not carry out: a scan opened past the last key of a
    leaf, and a search with no room left on the stack.  Both are reached by ordinary runs. */
module AmLimits {
  import opened AmEntries
  import opened AmLeafPage
  import opened AmHalves
  import opened AmTree
  import opened AmSplit
  import opened AmLeaves
  import opened AmClimb
  import opened AmDescend
  import opened AmUpdate
  import opened AmIndex
  import opened AmRun
  import opened AmCursor
  import opened AmScan

  // ---- an index of more than one leaf ----

  /** Keys 0, 1, 2, ..., each with its own number as recId. */
  ghost function Numbered(n: nat): seq<Entry> { seq(n, i requires i >= 0 => Entry(i, [i])) }

  function Inserts(n: nat): (ops: seq<Op>)
    ensures |ops| == n && forall i | 0 <= i < n :: ops[i] == Insert(i, i)
  {
    seq(n, i requires i >= 0 => Insert(i, i))
  }

  lemma {:induction false} InsertsCount(n: nat)
    ensures ApplyAll(Inserts(n)) == Numbered(n)
  {
    if n > 0 {
      var k := n - 1;
      assert Inserts(n)[..k] == Inserts(k);
      InsertsCount(k);
      InsertOnConcat(Numbered(k), [], [], k, k);
      assert Numbered(k) + [] + [] == Numbered(k);
      assert Numbered(k) + [Entry(k, [k])] + [] == Numbered(n);
    } else {
      assert Inserts(n) == [] && Numbered(n) == [];
    }
  }

  lemma InsertsOrderly(n: nat, max: int)
    requires max >= 1
    ensures Orderly(Inserts(n), max)
  {
    var ops := Inserts(n);
    forall i | 0 <= i < n ensures |Lookup(AsMap(ApplyAll(ops[..i])), i)| < max {
      assert ops[..i] == Inserts(i);
      InsertsCount(i);
      AsMapMiss(Numbered(i), i);
    }
  }

  /** More keys of a 4-byte attribute than fit on one page. */
  const MANY := 84

  lemma ManyNodes(f: File, ht: seq<nat>, h: nat, c: Config)
    requires TreeOk(f, ht, h, c) && c.attrLength == 4 && Contents(f, Leaves(f, h)) == Numbered(MANY)
    ensures h > 0
  {
    hide TreeOk, LeafOk, LeavesOk, Entries, Weight, NoEmptyList, SlotBytes, FreeBytes, Contents, LeafEntries;
    if h == 0 {
      LeavesOfTree(f, ht, 0, c);
      LeafThere(f, ht, RootLevel(), c, 0);
      RootFacts(f, ht, 0, c);
      var es := LeafEntries(f, 0);
      ContentsAround(f, RootLevel(), 0);
      RootSides(f);
      assert [] + es + [] == es;
      OneLeaf(f[0].leaf, es);
    }
  }

  lemma OneLeaf(lf: Leaf, es: seq<Entry>)
    requires LeafOk(lf) && lf.hdr.attrLength == 4 && es == Entries(lf)
    ensures |es| < MANY
  {
    hide LeafOk, Entries, Weight, NoEmptyList, SlotBytes, FreeBytes;
    LeafSpace(lf);
    WeightAtLeast(es, RecSize(4));
    SlotBytesIs(|es|, RecSize(4) + CELL);
  }

  /** Inserting the keys 0..83 makes an index of more than one leaf. */
  method ManyKeys() returns (idx: Index)
    ensures fresh(idx) && idx.Valid() && idx.stack == [] && idx.c.attrLength == 4 && idx.h > 0 && idx.h <= 30
    ensures idx.Content() == Numbered(MANY)
  {
    hide TreeOk, LeftOk, Contents, Leaves, Orderly, RoomyFile, Numbered, Inserts;
    InsertsOrderly(MANY, MaxRecIds(4));
    InsertsCount(MANY);
    idx := Run('i', 4, Inserts(MANY));
    ManyNodes(idx.pages, idx.ht, idx.h, idx.c);
    DepthBound(idx.pages, idx.ht, idx.h, idx.c);
  }

  // ---- a scan that does not open ----

  /** The lower bound of a page is the lower bound of a leaf below it. */
  lemma {:induction false} LowerKept(f: File, ht: seq<nat>, h: nat, c: Config, n: nat, q: nat) returns (x: nat)
    requires TreeOk(f, ht, h, c) && n <= h && q < |Below(f, RootLevel(), n)|
    ensures x < |Leaves(f, h)| && Leaves(f, h)[x].lower == Below(f, RootLevel(), n)[q].lower
    decreases h - n
  {
    hide LeafOk, LeavesOk, Down;
    if n == h {
      x := q;
    } else {
      var level := Below(f, RootLevel(), n);
      assert InnerOk(f, ht, level, h - n, c, MinAt(n, c));
      LevelHasKids(f, ht, level, h - n, c, MinAt(n, c));
      FirstKid(f, level, q);
      x := LowerKept(f, ht, h, c, n + 1, Start(f, level, q));
    }
  }

  /** The first separator s of the root divides the leaves: s - 1 belongs to a leaf that is not
      the last, and whose keys are less than s. */
  lemma RootSeparator(f: File, ht: seq<nat>, h: nat, c: Config) returns (q: nat)
    requires TreeOk(f, ht, h, c) && h > 0
    ensures IsNode(f, 0) && f[0].node.pairs != []
    ensures q + 1 < |Leaves(f, h)| && InRange(Leaves(f, h), q, f[0].node.pairs[0].key - 1)
    ensures Leaves(f, h)[q + 1].lower == At(f[0].node.pairs[0].key)
  {
    hide LeafOk, LeavesOk, Down, Leaves;
    SearchNode(f, ht, h, c, 0, 0, 0);
    RootKids(f);
    var x := LowerKept(f, ht, h, c, 1, 1);
    var y := LowerKept(f, ht, h, c, 1, 0);
    var level := Leaves(f, h);
    LeavesOfTree(f, ht, h, c);
    LeavesRise(f, ht, level, c);
    assert y < x;
    q := x - 1;
  }

  lemma RootKids(f: File)
    requires IsNode(f, 0) && f[0].node.pairs != []
    ensures var level := Below(f, RootLevel(), 1);
            |level| >= 2 && level[0].lower == NegInf && level[1].lower == At(f[0].node.pairs[0].key)
  {
    DownOne(f, Item(0, NegInf));
    assert Below(f, RootLevel(), 1) == Down(f, Below(f, RootLevel(), 0));
  }

  /** If k is not in the index, and the next leaf starts right after k, then k is past the last
      key of its leaf. */
  lemma NoneAbove(f: File, ht: seq<nat>, h: nat, c: Config, q: nat, k: Key)
    requires TreeOk(f, ht, h, c) && k !in AsMap(Contents(f, Leaves(f, h)))
    requires q + 1 < |Leaves(f, h)| && InRange(Leaves(f, h), q, k) && Leaves(f, h)[q + 1].lower == At(k + 1)
    ensures !Opens(f, h, k)
  {
    hide LeafOk, LeavesOk, Leaves, Contents, AsMap, Lookup, LeafEntries, TreeOk, IsPlace, InRange;
    var level := Leaves(f, h);
    LeavesOfTree(f, ht, h, c);
    var es := LeafEntries(f, level[q].page);
    LeafSorted(f, ht, level, c, q);
    var found, i := PlaceExists(es, k);
    LookupHere(f, ht, h, c, q, k, found, i, es);
    PlaceHasKey(es, k, found, i);
    forall x | 0 <= x < |es| ensures es[x].key < k {
      EntryInRange(f, ht, level, c, q, x);
      BelowNext(level, q, es[x].key, k);
    }
    assert !OpensAt(f, level, q, k);
  }

  lemma BelowNext(level: seq<Item>, q: nat, y: Key, k: Key)
    requires q + 1 < |level| && InRange(level, q, y) && level[q + 1].lower == At(k + 1)
    ensures y <= k
  {
  }

  /** Insert the keys 0..83, let k be the predecessor of the root's first separator, and delete k
      if it is there. */
  method GapBelow() returns (idx: Index, k: Key, ghost q: nat)
    ensures fresh(idx) && idx.Valid() && idx.h > 0 && |idx.stack| + idx.h <= AM_MAXSTACK && idx.c.attrLength == 4
    ensures q + 1 < |Leaves(idx.pages, idx.h)| && InRange(Leaves(idx.pages, idx.h), q, k)
    ensures Leaves(idx.pages, idx.h)[q + 1].lower == At(k + 1) && k !in AsMap(idx.Content())
    ensures Numbered(MANY) == idx.Content() || idx.Content() == DeleteOn(Numbered(MANY), k, k)
  {
    hide TreeOk, LeftOk, Contents, Leaves, InRange, Has, DeleteOn, CutFrom, AsMap, Numbered, RoomyFile, Below;
    idx := ManyKeys();
    ghost var f := idx.pages;
    q := RootSeparator(f, idx.ht, idx.h, idx.c);
    k := idx.pages[AM_ROOT].node.pairs[0].key - 1;
    if 0 <= k < MANY {
      ManyHas(k);
      var status;
      ghost var cut;
      status, cut := idx.DeleteEntry(0, 'i', 4, Of(k), k);
      CutLeaves(f, idx.h, k, k, cut, idx.pages);
    } else {
      ManyHasNot(k);
    }
  }

  /** AM_OpenIndexScan fails with AME_PF on a valid index, whichever operator it is given. */
  method OpenFails(op: int) returns (idx: Index, k: Key, errVal: int)
    ensures idx.Valid() && idx.h > 0 && !Opens(idx.pages, idx.h, k) && errVal == AME_PF
    ensures Numbered(MANY) == idx.Content() || idx.Content() == DeleteOn(Numbered(MANY), k, k)
  {
    hide TreeOk, LeftOk, Contents, Leaves, Opens, InRange, DeleteOn, AsMap, Numbered, RoomyFile;
    ghost var q;
    idx, k, q := GapBelow();
    NoneAbove(idx.pages, idx.ht, idx.h, idx.c, q, k);
    var scan;
    errVal, scan := OpenIndexScan(idx, 0, 'i', 4, op, Of(k));
  }

  lemma CutLeaves(f: File, h: nat, k: Key, r: RecId, cut: Cut, g: File)
    requires CutFrom(f, h, k, r, cut, g)
    ensures Leaves(g, h) == Leaves(f, h)
  {
  }

  lemma ManyHas(k: Key)
    requires 0 <= k < MANY
    ensures Has(Numbered(MANY), k, k) && k !in AsMap(DeleteOn(Numbered(MANY), k, k))
    ensures k in AsMap(Numbered(MANY))
  {
    var es := Numbered(MANY);
    AsMapHit(es, k);
    DeleteOnMap(es, k, k);
  }

  lemma ManyHasNot(k: Key)
    requires !(0 <= k < MANY)
    ensures k !in AsMap(Numbered(MANY)) && forall r :: !Has(Numbered(MANY), k, r)
  {
    AsMapMiss(Numbered(MANY), k);
  }

  // ---- the stack ----

  /** Opening a scan for a key that is there, and closing it, again and again: every open succeeds and
      leaves its search path on the stack, until there is no room for another, and the next search
      would write past its end. */
  method FillStack() returns (idx: Index, calls: nat)
    ensures idx.Valid() && idx.Content() == Numbered(MANY) && |idx.stack| == calls * idx.h
    ensures |idx.stack| <= AM_MAXSTACK < |idx.stack| + idx.h
  {
    hide TreeOk, LeftOk, Contents, Leaves, Opens, Numbered, RoomyFile, AsMap, Scanning, Wanted;
    idx := ManyKeys();
    ManyHas(0);
    PresentOpens(idx.pages, idx.ht, idx.h, idx.c, 0);
    var errVal, scan := OpenIndexScan(idx, 0, 'i', 4, EQUAL, Of(0));
    calls := 1;
    var path := |idx.stack|;
    while |idx.stack| + path <= AM_MAXSTACK
      invariant fresh(idx) && idx.Valid() && idx.Content() == Numbered(MANY) && idx.c.attrLength == 4
      invariant path == idx.h > 0 && Opens(idx.pages, idx.h, 0)
      invariant |idx.stack| == calls * path <= AM_MAXSTACK && errVal == AME_OK
      decreases AM_MAXSTACK - |idx.stack|
    {
      errVal, scan := OpenIndexScan(idx, 0, 'i', 4, EQUAL, Of(0));
      calls := calls + 1;
    }
  }

  /** A scan opens on every key of the index. */
  lemma PresentOpens(f: File, ht: seq<nat>, h: nat, c: Config, k: Key)
    requires TreeOk(f, ht, h, c) && k in AsMap(Contents(f, Leaves(f, h)))
    ensures Opens(f, h, k)
  {
    hide LeafOk, LeavesOk, Leaves, Contents, AsMap, Lookup, LeafEntries, TreeOk, IsPlace, InRange;
    var level := Leaves(f, h);
    LeavesOfTree(f, ht, h, c);
    forall q | 0 <= q < |level| && InRange(level, q, k) ensures OpensAt(f, level, q, k) {
      LeafSorted(f, ht, level, c, q);
      var es := LeafEntries(f, level[q].page);
      var found, i := PlaceExists(es, k);
      LookupHere(f, ht, h, c, q, k, found, i, es);
      PlaceKeyIs(es, k, found, i);
    }
  }
}
