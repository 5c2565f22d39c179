/** Scans of a bulk-loaded index (blscan.c): a cursor runs along the chain of leaves. */
module BlScan {
  import opened BlPages
  import opened BlBulk

  const BL_EQ := 1
  const BL_LT := 2
  const BL_GT := 3
  const BL_LE := 4
  const BL_GE := 5
  const BL_NE := 6

  /** sc: any operator but these six is false of every key. */
  predicate Sc(k: int, o: int, s: int) {
    if o == BL_EQ then k == s
    else if o == BL_LT then k < s
    else if o == BL_GT then k > s
    else if o == BL_LE then k <= s
    else if o == BL_GE then k >= s
    else o == BL_NE && k != s
  }

  /** The entries from pos on whose keys satisfy the operator, in order. */
  ghost function Matching(d: seq<KeyVal>, pos: nat, o: int, s: int): seq<KeyVal>
    decreases |d| - pos
  {
    if pos >= |d| then []
    else (if Sc(d[pos].key, o, s) then [d[pos]] else []) + Matching(d, pos + 1, o, s)
  }

  /** The rows are the entries at the given places: those from pos on that satisfy the operator, in order. */
  ghost predicate Picks(d: seq<KeyVal>, pos: nat, o: int, s: int, at: seq<nat>, rows: seq<KeyVal>) {
    && |at| == |rows|
    && (forall i | 0 <= i < |at| :: pos <= at[i] < |d| && rows[i] == d[at[i]])
    && (forall i, j | 0 <= i < j < |at| :: at[i] < at[j])
    && (forall x | pos <= x < |d| ::
          x in at <==> (o == BL_EQ && d[x].key == s) || (o == BL_NE && d[x].key != s)
                       || (o == BL_LT && d[x].key < s) || (o == BL_LE && d[x].key <= s)
                       || (o == BL_GT && d[x].key > s) || (o == BL_GE && d[x].key >= s))
  }

  lemma PickFront(d: seq<KeyVal>, pos: nat, o: int, s: int, at: seq<nat>, rows: seq<KeyVal>)
    requires pos < |d| && Sc(d[pos].key, o, s) && Picks(d, pos + 1, o, s, at, rows)
    ensures Picks(d, pos, o, s, [pos] + at, [d[pos]] + rows)
  {
    var at1, rows1 := [pos] + at, [d[pos]] + rows;
    forall i | 0 <= i < |at1| ensures pos <= at1[i] < |d| && rows1[i] == d[at1[i]] && (i > 0 ==> at1[i] > pos) {
      assert i > 0 ==> at1[i] == at[i - 1] && rows1[i] == rows[i - 1];
    }
  }

  /** Exactly the entries that satisfy the operator, in the order of the data. */
  lemma {:induction false} MatchingIsFilter(d: seq<KeyVal>, pos: nat, o: int, s: int) returns (at: seq<nat>)
    ensures Picks(d, pos, o, s, at, Matching(d, pos, o, s))
    decreases |d| - pos
  {
    if pos >= |d| {
      at := [];
    } else {
      at := MatchingIsFilter(d, pos + 1, o, s);
      if Sc(d[pos].key, o, s) {
        PickFront(d, pos, o, s, at, Matching(d, pos + 1, o, s));
        at := [pos] + at;
      }
    }
  }

  /** The cursor stands in leaf i at the given slot, with pos entries behind it, or past the end. */
  ghost predicate Stands(lv: Level, d: seq<KeyVal>, page: int, slot: int, i: nat, pos: nat) {
    if i < |lv.his| then
      page == lv.base + i && 0 <= slot && pos == Lo(lv.his, i) + slot && pos <= lv.his[i]
    else
      page == BL_NO_PAGE && pos == |d|
  }

  ghost function FirstLevel(levels: seq<Level>): Level {
    if |levels| > 0 then levels[0] else Level(0, [])
  }

  lemma AtFirst(pages: seq<Page>, levels: seq<Level>, d: seq<KeyVal>)
    requires IndexOk(pages, levels, d)
    ensures Stands(FirstLevel(levels), d, pages[0].firstLeaf, 0, 0, 0)
  {
    hide LeafEnds;
    if d != [] { LeafEndsOk(|d|); }
  }

  /** The entries of the leaf the cursor stands in, and where the cursor goes after them. */
  lemma LeafAt(pages: seq<Page>, levels: seq<Level>, d: seq<KeyVal>, page: int, slot: int, i: nat, pos: nat)
    requires IndexOk(pages, levels, d) && Stands(FirstLevel(levels), d, page, slot, i, pos) && page != BL_NO_PAGE
    ensures var lv := FirstLevel(levels);
            && i < |lv.his| && 0 <= page == lv.base + i < |pages|
            && var lo, pg := Lo(lv.his, i), pages[page];
            && pg.LeafPage? && pg.numKeys >= 0 && LeafHolds(pg, d, lo, lo + pg.numKeys)
            && 0 <= slot <= pg.numKeys && pos == lo + slot
            && (forall x, p: nat | 0 <= x <= pg.numKeys && p == lo + x :: Stands(lv, d, page, x, i, p))
            && Stands(lv, d, pg.nextPage, 0, i + 1, lo + pg.numKeys)
  {
    hide LeafEnds, LeafHolds;
    var lv := FirstLevel(levels);
    LeafEndsOk(|d|);
    assert LeafOk(pages, lv, i, d);
    LeafSize(pages[page], d, Lo(lv.his, i), lv.his[i]);
    if i + 1 < |lv.his| { EndsBounds(lv.his, |d|, i + 1); }
  }

  lemma NotPast(lv: Level, d: seq<KeyVal>, page: int, slot: int, i: nat, pos: nat)
    requires Stands(lv, d, page, slot, i, pos)
    ensures page == BL_NO_PAGE ==> pos == |d|
  {
  }

  lemma LeafSize(pg: Page, d: seq<KeyVal>, lo: nat, hi: nat)
    requires LeafHolds(pg, d, lo, hi)
    ensures pg.LeafPage? && 0 <= pg.numKeys && hi == lo + pg.numKeys
  {
  }

  datatype Row = BL_OK(key: int, value: int) | BL_EOF | BL_ERROR

  class ScanDesc {
    var index: Bulk
    var op: int
    var scanKey: int
    var currentPage: int
    var currentSlot: int
    var isOpen: bool
    ghost var leaf: nat
    ghost var pos: nat

    /** The scan stands somewhere on the leaves of the index, as long as the index is not reloaded. */
    ghost predicate Valid()
      reads this, index
    {
      index.Valid() && Stands(FirstLevel(index.levels), index.data, currentPage, currentSlot, leaf, pos)
    }

    /** What the scan has still to return. */
    ghost function Pending(): seq<KeyVal>
      reads this, index
    {
      Matching(index.data, pos, op, scanKey)
    }

    /** BL_OpenScan */
    constructor OpenScan(index: Bulk, o: int, sk: int)
      requires index.Valid()
      ensures Valid() && isOpen && this.index == index && op == o && scanKey == sk
      ensures Pending() == Matching(index.data, 0, o, sk)
    {
      AtFirst(index.pages, index.levels, index.data);
      this.index := index;
      op, scanKey := o, sk;
      currentPage, currentSlot := index.pages[0].firstLeaf, 0;
      isOpen := true;
      leaf, pos := 0, 0;
    }

    /** BL_GetNext: the next entry that satisfies the operator, until there is none. */
    method GetNext() returns (r: Row)
      requires Valid()
      modifies this`currentPage, this`currentSlot, this`leaf, this`pos
      ensures Valid()
      ensures !isOpen ==> r == BL_ERROR && Pending() == old(Pending())
      ensures isOpen ==> r != BL_ERROR
      ensures r.BL_OK? ==> old(Pending()) == [KeyVal(r.key, r.value)] + Pending()
      ensures r.BL_OK? ==>
                (op == BL_EQ && r.key == scanKey) || (op == BL_NE && r.key != scanKey)
                || (op == BL_LT && r.key < scanKey) || (op == BL_LE && r.key <= scanKey)
                || (op == BL_GT && r.key > scanKey) || (op == BL_GE && r.key >= scanKey)
      ensures r.BL_EOF? ==> old(Pending()) == Pending() == []
    {
      hide Stands, LeafOk, IndexOk, FirstLevel;
      if !isOpen { return BL_ERROR; }
      ghost var lv := FirstLevel(index.levels);
      NotPast(lv, index.data, currentPage, currentSlot, leaf, pos);
      while currentPage != BL_NO_PAGE
        invariant Valid() && Pending() == old(Pending())
        invariant currentPage == BL_NO_PAGE ==> pos == |index.data|
        decreases |lv.his| - leaf
      {
        LeafAt(index.pages, index.levels, index.data, currentPage, currentSlot, leaf, pos);
        var lh := index.pages[currentPage];
        ghost var page, i := currentPage, leaf;
        while currentSlot < lh.numKeys
          invariant Pending() == old(Pending()) && 0 <= currentSlot <= lh.numKeys
          invariant pos == Lo(lv.his, i) + currentSlot && currentPage == page && leaf == i
        {
          var ck, cv := lh.keys[currentSlot], lh.values[currentSlot];
          assert index.data[pos] == KeyVal(ck, cv);
          currentSlot, pos := currentSlot + 1, pos + 1;
          if Sc(ck, op, scanKey) {
            return BL_OK(ck, cv);
          }
        }
        currentPage := lh.nextPage;
        currentSlot := 0;
        leaf := leaf + 1;
        NotPast(lv, index.data, currentPage, currentSlot, leaf, pos);
      }
      return BL_EOF;
    }

    /** BL_CloseScan */
    method CloseScan()
      modifies this`isOpen
      ensures !isOpen
    {
      isOpen := false;
    }
  }

  /** Calling BL_GetNext until BL_EOF returns the entries at the given places: exactly those whose keys
      satisfy the operator, in order; none for any other operator. */
  method ScanAll(index: Bulk, o: int, sk: int) returns (rows: seq<KeyVal>, ghost at: seq<nat>)
    requires index.Valid()
    ensures |at| == |rows| && forall i | 0 <= i < |at| :: at[i] < |index.data| && rows[i] == index.data[at[i]]
    ensures forall i, j | 0 <= i < j < |at| :: at[i] < at[j]
    ensures forall x | 0 <= x < |index.data| ::
              var k := index.data[x].key;
              x in at <==> (o == BL_EQ && k == sk) || (o == BL_NE && k != sk)
                           || (o == BL_LT && k < sk) || (o == BL_LE && k <= sk)
                           || (o == BL_GT && k > sk) || (o == BL_GE && k >= sk)
  {
    rows := [];
    var sd := new ScanDesc.OpenScan(index, o, sk);
    var r := sd.GetNext();
    while r.BL_OK?
      invariant sd.Valid() && fresh(sd) && sd.isOpen && r != BL_ERROR && sd.index == index
      invariant r.BL_OK? ==> rows + [KeyVal(r.key, r.value)] + sd.Pending() == Matching(index.data, 0, o, sk)
      invariant r.BL_EOF? ==> rows == Matching(index.data, 0, o, sk)
      decreases r.BL_OK?, |sd.Pending()|
    {
      rows := rows + [KeyVal(r.key, r.value)];
      r := sd.GetNext();
    }
    sd.CloseScan();
    at := MatchingIsFilter(index.data, 0, o, sk);
  }
}
