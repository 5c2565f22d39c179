/** Where an index scan stands: the row of the scan table against the leaf it points into, and
    the pairs still to come.  The leaf may have changed since the row was written: deleting the
    pair returned last shifts keys under the row, or leaves it on a stale slot. */
module AmCursor {
  import opened Sequences
  import opened AmEntries
  import opened AmLeafPage
  import opened AmLeafSteps
  import opened AmHalves
  import opened AmTree
  import opened AmLeaves
  import opened AmUpdate

  const FIRST := 1
  const BUSY := 2
  const OVER := 4
  const ALL := 0
  const EQUAL := 1
  const LESS_THAN := 2
  const GREATER_THAN := 3
  const LESS_THAN_EQUAL := 4
  const GREATER_THAN_EQUAL := 5
  const NOT_EQUAL := 6

  /** The fields of a row of AM_scanTable that these operators use. */
  datatype Row = Row(op: int, pageNum: int, index: int, actindex: int, nextpageNum: int, nextvalue: Key,
                     nextIndex: int, nextRecIdPtr: int, status: int)

  /** The pairs of es from the j-th recId of key i on. */
  ghost function PageRest(es: seq<Entry>, i: nat, j: nat): seq<(Key, RecId)>
    requires i < |es| && j <= |es[i].recIds|
  {
    ListPairs(es[i].key, es[i].recIds[j..]) + Pairs(es[i + 1..])
  }

  /** What the operator wants from the j-th recId of key i on: the key's list, or everything up
      to the last of the leaves after. */
  ghost function RestAt(op: int, es: seq<Entry>, i: nat, j: nat, after: seq<Entry>): seq<(Key, RecId)>
    requires i < |es| && j <= |es[i].recIds|
  {
    if op == EQUAL then ListPairs(es[i].key, es[i].recIds[j..]) else PageRest(es, i, j) + Pairs(after)
  }

  /** The row points at the j-th cell of the list of key i: at its slot; or one past it, on the
      slot of the next key, because a key before it was deleted; or on the stale copy that such
      a deletion leaves behind the last key. */
  ghost predicate PointsAt(row: Row, lf: Leaf, i: nat, j: nat)
    requires LeafOk(lf) && |lf.slots| == MAX_SLOTS
  {
    var ls := LayoutOf(lf).lists;
    && i < |ls| && j < |ls[i]| && |ls| <= MAX_SLOTS
    && if row.status == FIRST then row.nextIndex == i + 1 && j == 0 && row.nextRecIdPtr == ls[i][j]
       else
         && row.nextvalue == lf.slots[i].key
         && (|| (row.nextIndex == i + 1 && row.nextRecIdPtr == ls[i][j])
             || (row.nextIndex == i + 2 <= |ls| && j == 0)
             || (i + 1 == |ls| && row.nextIndex == i + 2 <= MAX_SLOTS && row.nextRecIdPtr == ls[i][j]
                 && lf.slots[i + 1].key == row.nextvalue))
  }

  ghost predicate LeafAtPos(f: File, level: seq<Item>, q: nat) {
    && q < |level| && IsLeaf(f, level[q].page) && LeafOk(f[level[q].page].leaf)
    && |f[level[q].page].leaf.slots| == MAX_SLOTS
  }

  /** The row is at cell j of key i of leaf q, and the pairs from there on that the operator
      wants are rest. */
  ghost predicate CursorAt(row: Row, f: File, level: seq<Item>, q: nat, i: nat, j: nat, rest: seq<(Key, RecId)>) {
    && LeafAtPos(f, level, q) && row.nextpageNum == level[q].page
    && (row.status == FIRST || row.status == BUSY)
    && var lf := f[level[q].page].leaf;
       var es := Entries(lf);
       if es == [] then row.op != EQUAL && rest == Pairs(After(f, level, q))
       else
         && PointsAt(row, lf, i, j)
         && i < |es| && j < |es[i].recIds|
         && (row.op == EQUAL ==> row.pageNum == row.nextpageNum && row.index == row.actindex)
         && rest == RestAt(row.op, es, i, j, After(f, level, q))
  }

  /** The scan will return exactly rest. */
  ghost predicate Scanning(row: Row, f: File, level: seq<Item>, rest: seq<(Key, RecId)>) {
    if row.status == OVER || row.nextpageNum == AM_NULL_PAGE then rest == []
    else exists q, i, j :: CursorAt(row, f, level, q, i, j, rest)
  }

  /** (k, r) is right before cell j of key i of leaf q: in the same list, under the key before,
      or on the leaf before. */
  ghost predicate JustBefore(row: Row, f: File, level: seq<Item>, q: nat, i: nat, j: nat, k: Key, r: RecId) {
    && LeafAtPos(f, level, q)
    && var es := Entries(f[level[q].page].leaf);
       || (i < |es| && 1 <= j <= |es[i].recIds| && es[i].key == k && es[i].recIds[j - 1] == r)
       || (1 <= i < |es| && j == 0 && es[i - 1].key == k && row.nextIndex == i + 1 && row.status == BUSY)
       || (1 <= q && InRange(level, q - 1, k))
  }

  /** The scan has just returned (k, r) and will return exactly rest. */
  ghost predicate Returned(row: Row, f: File, level: seq<Item>, rest: seq<(Key, RecId)>, k: Key, r: RecId) {
    if row.status == OVER then rest == []
    else row.nextpageNum != AM_NULL_PAGE
         && exists q, i, j :: CursorAt(row, f, level, q, i, j, rest) && JustBefore(row, f, level, q, i, j, k, r)
  }

  lemma ReturnedScans(row: Row, f: File, level: seq<Item>, rest: seq<(Key, RecId)>, k: Key, r: RecId)
    requires Returned(row, f, level, rest, k, r)
    ensures Scanning(row, f, level, rest)
  {
    hide CursorAt, JustBefore;
  }

  // ---- pairs ----

  lemma PairsOne(e: Entry, es: seq<Entry>)
    ensures Pairs([e] + es) == ListPairs(e.key, e.recIds) + Pairs(es)
  {
    assert ([e] + es)[1..] == es;
  }

  lemma NoPairs(k: Key)
    ensures Pairs([]) == [] && ListPairs(k, []) == []
  {
  }

  lemma PageRestWhole(es: seq<Entry>)
    requires es != [] && NoEmptyList(es)
    ensures PageRest(es, 0, 0) == Pairs(es) && es[0].recIds != []
  {
    assert es[0].recIds[0..] == es[0].recIds;
  }

  /** The next leaf's pairs come first among those after leaf q. */
  lemma AfterNext(f: File, level: seq<Item>, q: nat)
    requires q < |level|
    ensures q + 1 < |level| ==>
              Pairs(After(f, level, q)) == Pairs(LeafEntries(f, level[q + 1].page)) + Pairs(After(f, level, q + 1))
    ensures q + 1 == |level| ==> Pairs(After(f, level, q)) == []
  {
    hide LeafEntries;
    var ls: seq<seq<Entry>> := EntryLists(f, level);
    if q + 1 < |level| {
      assert ls[q + 1..] == [ls[q + 1]] + ls[q + 2..];
      CatConcat([ls[q + 1]], ls[q + 2..]);
      CatOne(ls[q + 1]);
      PairsConcat(ls[q + 1], Cat(ls[q + 2..]));
    }
  }

  /** One pair returned from a list. */
  lemma ListStep(k: Key, rs: seq<RecId>, j: nat)
    requires j < |rs|
    ensures ListPairs(k, rs[j..]) == [(k, rs[j])] + ListPairs(k, rs[j + 1..])
    ensures ListPairs(k, rs[|rs|..]) == []
  {
  }

  lemma PageStep(es: seq<Entry>, i: nat, j: nat)
    requires i < |es| && j < |es[i].recIds|
    ensures PageRest(es, i, j) == [(es[i].key, es[i].recIds[j])] + PageRest(es, i, j + 1)
    ensures i + 1 < |es| ==> PageRest(es, i, |es[i].recIds|) == PageRest(es, i + 1, 0)
    ensures i + 1 == |es| ==> PageRest(es, i, |es[i].recIds|) == []
  {
    ListStep(es[i].key, es[i].recIds, j);
    if i + 1 < |es| {
      assert es[i + 1..] == [es[i + 1]] + es[i + 2..];
      PairsOne(es[i + 1], es[i + 2..]);
      assert es[i + 1].recIds[0..] == es[i + 1].recIds;
    }
  }

  /** Taking the first of the remaining pairs. */
  lemma RestStep(op: int, es: seq<Entry>, i: nat, j: nat, after: seq<Entry>)
    requires i < |es| && j < |es[i].recIds|
    ensures var rest, n := RestAt(op, es, i, j, after), |es[i].recIds|;
            && rest != [] && rest[0] == (es[i].key, es[i].recIds[j])
            && (j + 1 < n ==> rest[1..] == RestAt(op, es, i, j + 1, after))
            && (j + 1 == n && op == EQUAL ==> rest[1..] == [])
            && (j + 1 == n && op != EQUAL && i + 1 < |es| ==> rest[1..] == RestAt(op, es, i + 1, 0, after))
            && (j + 1 == n && op != EQUAL && i + 1 == |es| ==> rest[1..] == Pairs(after))
  {
    var p, n := (es[i].key, es[i].recIds[j]), |es[i].recIds|;
    ListStep(es[i].key, es[i].recIds, j);
    PageStep(es, i, j);
    FirstOff(p, ListPairs(es[i].key, es[i].recIds[j + 1..]), []);
    FirstOff(p, PageRest(es, i, j + 1), Pairs(after));
    hide PageRest, ListPairs, Pairs;
    assert j + 1 == n ==> es[i].recIds[j + 1..] == es[i].recIds[n..];
  }

  lemma FirstOff<T>(x: T, a: seq<T>, b: seq<T>)
    ensures ([x] + a + b)[0] == x && ([x] + a + b)[1..] == a + b
    ensures b == [] ==> [x] + a + b == [x] + a && a + b == a
  {
  }

  // ---- what a leaf's slots and cells say of its entries ----

  lemma EntryCells(lf: Leaf, i: nat)
    requires LeafOk(lf) && i < |Entries(lf)|
    ensures var ls, es := LayoutOf(lf).lists, Entries(lf);
            && |ls| == |es| == lf.hdr.numKeys <= MAX_SLOTS == |lf.slots|
            && |ls[i]| == |es[i].recIds| > 0
            && lf.slots[i].key == es[i].key && lf.slots[i].head == ls[i][0]
            && forall j | 0 <= j < |ls[i]| ::
                 0 < ls[i][j] < |lf.cells| && lf.cells[ls[i][j]].recId == es[i].recIds[j]
                 && lf.cells[ls[i][j]].next == OffsetAt(ls[i], j + 1)
  {
    assert Entries(lf)[i] == EntryIn(lf.slots, lf.cells, LayoutOf(lf).lists, i);
  }

  // ---- the steps of AM_FindNextEntry ----

  lemma LeafThere(f: File, ht: seq<nat>, level: seq<Item>, c: Config, q: nat)
    requires LeavesOk(f, ht, level, c) && q < |level|
    ensures LeafAtPos(f, level, q) && LeafEntries(f, level[q].page) == Entries(f[level[q].page].leaf)
    ensures var lf := f[level[q].page].leaf;
            && lf.hdr.nextLeafPage == NextPage(level, q) && lf.hdr.numKeys == |Entries(lf)|
            && NoEmptyList(Entries(lf)) && Sorted(Entries(lf))
    ensures 0 <= level[q].page
  {
    LeafFits(f, ht, level, c, q);
    hide LeafOk, LeavesOk;
    LeafSpace(f[level[q].page].leaf);
    LeafHasShape(f[level[q].page].leaf);
  }

  lemma LeafHasShape(lf: Leaf)
    requires LeafOk(lf)
    ensures |lf.slots| == MAX_SLOTS && |lf.cells| == PF_PAGE_SIZE
  {
  }

  /** The row as AM_FindNextEntry sets it when it passes an empty leaf. */
  function NextLeafRow(row: Row, page: int, head: int): Row {
    row.(nextpageNum := page, nextIndex := 1, actindex := 1, nextRecIdPtr := head, status := FIRST)
  }

  /** At the start of a leaf. */
  lemma StartOfLeaf(row: Row, f: File, ht: seq<nat>, level: seq<Item>, c: Config, q: nat)
    requires LeavesOk(f, ht, level, c) && q < |level| && row.op != EQUAL
    requires row.nextpageNum == level[q].page && row.nextIndex == 1
    requires IsLeaf(f, level[q].page) && |f[level[q].page].leaf.slots| > 0
    requires var slot := f[level[q].page].leaf.slots[0];
             row.nextRecIdPtr == slot.head && (row.status == FIRST || (row.status == BUSY && row.nextvalue == slot.key))
    ensures CursorAt(row, f, level, q, 0, 0, Pairs(LeafEntries(f, level[q].page)) + Pairs(After(f, level, q)))
  {
    hide LeavesOk, LeafOk, Entries, After, LeafEntries, Sorted, NoEmptyList, NextPage, LayoutOf, Pairs, PageRest;
    LeafThere(f, ht, level, c, q);
    var lf := f[level[q].page].leaf;
    if Entries(lf) == [] {
      assert Pairs([]) == [] by { NoPairs(0); }
      assert [] + Pairs(After(f, level, q)) == Pairs(After(f, level, q));
    } else {
      EntryCells(lf, 0);
      PageRestWhole(Entries(lf));
    }
  }

  lemma SkipLeaf(row: Row, f: File, ht: seq<nat>, level: seq<Item>, c: Config, q: nat, i: nat, j: nat,
          rest: seq<(Key, RecId)>)
    requires LeavesOk(f, ht, level, c) && CursorAt(row, f, level, q, i, j, rest) && Entries(f[level[q].page].leaf) == []
    ensures f[level[q].page].leaf.hdr.nextLeafPage == NextPage(level, q)
    ensures q + 1 == |level| ==> rest == []
    ensures q + 1 < |level| ==>
              && LeafAtPos(f, level, q + 1) && 0 <= level[q + 1].page
              && var lf := f[level[q + 1].page].leaf;
                 CursorAt(NextLeafRow(row, level[q + 1].page, lf.slots[0].head), f, level, q + 1, 0, 0, rest)
  {
    LeafThere(f, ht, level, c, q);
    AfterNext(f, level, q);
    if q + 1 < |level| {
      LeafThere(f, ht, level, c, q + 1);
      var lf := f[level[q + 1].page].leaf;
      hide LeafOk, LeavesOk, Entries, After, CursorAt;
      var next := NextLeafRow(row, level[q + 1].page, lf.slots[0].head);
      NotEqualOp(row, f, level, q, i, j, rest);
      StartOfLeaf(next, f, ht, level, c, q + 1);
    }
  }

  lemma NotEqualOp(row: Row, f: File, level: seq<Item>, q: nat, i: nat, j: nat, rest: seq<(Key, RecId)>)
    requires CursorAt(row, f, level, q, i, j, rest) && Entries(f[level[q].page].leaf) == []
    ensures row.op != EQUAL && rest == Pairs(After(f, level, q))
  {
  }

  /** The row after the check that the previous record may have been deleted. */
  function CheckedRow(row: Row, slots: seq<Slot>): Row
    requires 1 <= row.nextIndex <= |slots|
  {
    if row.status == FIRST then row.(status := BUSY, nextvalue := slots[row.nextIndex - 1].key)
    else if slots[row.nextIndex - 1].key != row.nextvalue then
      row.(nextIndex := row.nextIndex - 1,
           nextRecIdPtr := if row.nextIndex >= 2 then slots[row.nextIndex - 2].head else 0)
    else row
  }

  /** After that check the row is on the cell to return, under key i. */
  ghost predicate Settled(row: Row, lf: Leaf, i: nat, j: nat)
    requires LeafOk(lf) && |lf.slots| == MAX_SLOTS
  {
    var ls := LayoutOf(lf).lists;
    && i < |ls| && j < |ls[i]| && row.status == BUSY && row.nextRecIdPtr == ls[i][j]
    && row.nextvalue == lf.slots[i].key
    && (row.nextIndex == i + 1
        || (i + 1 == |ls| && row.nextIndex == i + 2 <= MAX_SLOTS && lf.slots[i + 1].key == row.nextvalue))
  }

  lemma ListCount(lf: Leaf)
    requires LeafOk(lf)
    ensures |LayoutOf(lf).lists| == |Entries(lf)|
  {
  }

  lemma Settle(row: Row, lf: Leaf, i: nat, j: nat)
    requires LeafOk(lf) && |lf.slots| == MAX_SLOTS && Sorted(Entries(lf)) && (row.status == FIRST || row.status == BUSY)
    requires PointsAt(row, lf, i, j)
    ensures 1 <= row.nextIndex <= MAX_SLOTS && Settled(CheckedRow(row, lf.slots), lf, i, j)
    ensures row.status != FIRST && lf.slots[row.nextIndex - 1].key != row.nextvalue ==> row.nextIndex >= 2
  {
    hide LayoutOf, LeafOk, Entries;
    var es := Entries(lf);
    ListCount(lf);
    EntryCells(lf, i);
    if row.nextIndex == i + 2 && i + 1 < |es| {
      EntryCells(lf, i + 1);
      assert es[i].key < es[i + 1].key;
    }
  }

  ghost predicate SettledAt(row: Row, f: File, level: seq<Item>, q: nat, i: nat, j: nat, rest: seq<(Key, RecId)>) {
    && LeafAtPos(f, level, q) && row.nextpageNum == level[q].page
    && var lf := f[level[q].page].leaf;
       var es := Entries(lf);
       && Settled(row, lf, i, j)
       && i < |es| && j < |es[i].recIds|
       && (row.op == EQUAL ==> row.pageNum == row.nextpageNum && row.index == row.actindex)
       && rest == RestAt(row.op, es, i, j, After(f, level, q))
  }

  lemma SettleAt(row: Row, f: File, ht: seq<nat>, level: seq<Item>, c: Config, q: nat, i: nat, j: nat,
          rest: seq<(Key, RecId)>)
    requires LeavesOk(f, ht, level, c) && CursorAt(row, f, level, q, i, j, rest) && Entries(f[level[q].page].leaf) != []
    ensures 1 <= row.nextIndex <= MAX_SLOTS
    ensures SettledAt(CheckedRow(row, f[level[q].page].leaf.slots), f, level, q, i, j, rest)
    ensures row.status != FIRST && f[level[q].page].leaf.slots[row.nextIndex - 1].key != row.nextvalue
            ==> row.nextIndex >= 2
  {
    LeafThere(f, ht, level, c, q);
    hide LeafOk, LeavesOk, Entries, After, PointsAt, Settled, PageRest;
    Settle(row, f[level[q].page].leaf, i, j);
  }

  /** The cell at the row, and the first of the pairs still to come. */
  lemma CellHere(row: Row, f: File, ht: seq<nat>, level: seq<Item>, c: Config, q: nat, i: nat, j: nat,
          rest: seq<(Key, RecId)>)
    requires LeavesOk(f, ht, level, c) && SettledAt(row, f, level, q, i, j, rest)
    ensures var lf := f[level[q].page].leaf;
            var e := Entries(lf)[i];
            && 0 < row.nextRecIdPtr < |lf.cells| && lf.cells[row.nextRecIdPtr].recId == e.recIds[j]
            && (lf.cells[row.nextRecIdPtr].next == AM_NULL <==> j + 1 == |e.recIds|)
            && rest != [] && rest[0] == (e.key, e.recIds[j])
            && InRange(level, q, e.key) && lf.hdr.numKeys == |Entries(lf)| && lf.hdr.nextLeafPage == NextPage(level, q)
  {
    LeafThere(f, ht, level, c, q);
    var lf := f[level[q].page].leaf;
    EntryCells(lf, i);
    EntryInRange(f, ht, level, c, q, i);
    RestStep(row.op, Entries(lf), i, j, After(f, level, q));
    hide LeafOk, LeavesOk, After, InRange, Entries, PageRest;
  }

  /** More recIds in the list: the row moves to the next cell. */
  lemma StepInList(row: Row, f: File, level: seq<Item>, q: nat, i: nat, j: nat, rest: seq<(Key, RecId)>)
    requires SettledAt(row, f, level, q, i, j, rest) && rest != []
    requires j + 1 < |Entries(f[level[q].page].leaf)[i].recIds| && 0 < row.nextRecIdPtr < |f[level[q].page].leaf.cells|
    ensures var next := row.(nextRecIdPtr := f[level[q].page].leaf.cells[row.nextRecIdPtr].next);
            CursorAt(next, f, level, q, i, j + 1, rest[1..])
            && JustBefore(next, f, level, q, i, j + 1, rest[0].0, rest[0].1)
  {
    var lf := f[level[q].page].leaf;
    EntryCells(lf, i);
    RestStep(row.op, Entries(lf), i, j, After(f, level, q));
    hide LeafOk, LayoutOf, After, InRange, Entries, PageRest, ListPairs;
  }

  /** The list is over and there is another key: the row moves to its slot. */
  lemma StepToKey(row: Row, f: File, level: seq<Item>, q: nat, i: nat, j: nat, rest: seq<(Key, RecId)>)
    requires SettledAt(row, f, level, q, i, j, rest) && rest != []
    requires j + 1 == |Entries(f[level[q].page].leaf)[i].recIds|
    requires row.nextIndex + 1 <= |Entries(f[level[q].page].leaf)|
    ensures row.nextIndex < MAX_SLOTS
    ensures var slot := f[level[q].page].leaf.slots[row.nextIndex];
            var next := row.(nextIndex := row.nextIndex + 1, actindex := row.actindex + 1, nextRecIdPtr := slot.head,
                             nextvalue := slot.key);
            && (row.op == EQUAL ==> rest[1..] == [] && next.index != next.actindex)
            && (row.op != EQUAL ==> CursorAt(next, f, level, q, i + 1, 0, rest[1..])
                                    && JustBefore(next, f, level, q, i + 1, 0, rest[0].0, rest[0].1))
  {
    var lf := f[level[q].page].leaf;
    EntryCells(lf, i);
    EntryCells(lf, i + 1);
    RestStep(row.op, Entries(lf), i, j, After(f, level, q));
    hide LeafOk, LayoutOf, After, InRange, Entries, PageRest, ListPairs;
  }

  /** The list of the last key is over: the row moves to the next leaf, if there is one. */
  lemma StepToLeaf(row: Row, f: File, ht: seq<nat>, level: seq<Item>, c: Config, q: nat, i: nat, j: nat,
          rest: seq<(Key, RecId)>)
    requires LeavesOk(f, ht, level, c) && SettledAt(row, f, level, q, i, j, rest) && rest != []
    requires j + 1 == |Entries(f[level[q].page].leaf)[i].recIds| && row.nextIndex + 1 > |Entries(f[level[q].page].leaf)|
    ensures q + 1 == |level| ==> rest[1..] == []
    ensures q + 1 < |level| ==>
              && LeafAtPos(f, level, q + 1) && 0 <= level[q + 1].page
              && var slot := f[level[q + 1].page].leaf.slots[0];
                 var next := row.(nextpageNum := level[q + 1].page, nextIndex := 1, actindex := 1,
                                  nextRecIdPtr := slot.head, nextvalue := slot.key);
                 && (row.op == EQUAL ==> rest[1..] == [] && next.pageNum != next.nextpageNum)
                 && (row.op != EQUAL ==> CursorAt(next, f, level, q + 1, 0, 0, rest[1..])
                                         && JustBefore(next, f, level, q + 1, 0, 0, rest[0].0, rest[0].1))
  {
    var lf := f[level[q].page].leaf;
    EntryCells(lf, i);
    CellHere(row, f, ht, level, c, q, i, j, rest);
    RestStep(row.op, Entries(lf), i, j, After(f, level, q));
    AfterNext(f, level, q);
    hide LeafOk, After, InRange, Entries, PageRest, ListPairs, LeafOkAt, LowersRise;
    if q + 1 < |level| {
      LeafThere(f, ht, level, c, q + 1);
      if row.op != EQUAL {
        var slot := f[level[q + 1].page].leaf.slots[0];
        StartOfLeaf(row.(nextpageNum := level[q + 1].page, nextIndex := 1, actindex := 1, nextRecIdPtr := slot.head,
                         nextvalue := slot.key), f, ht, level, c, q + 1);
      }
    }
  }

  // ---- deleting the pair returned last ----

  lemma DeletedKeeps(lf: Leaf, t: Leaf, i: nat, p: nat)
    requires Deleted(lf, t, i, p) && i < |LayoutOf(lf).lists| && |LayoutOf(lf).lists[i]| > 1
    ensures var ls := LayoutOf(lf).lists;
            && p < |ls[i]| && LayoutOf(t).lists == ls[i := RemoveAt(ls[i], p)]
            && |t.slots| == |lf.slots| == MAX_SLOTS
            && forall m | 0 <= m < MAX_SLOTS :: t.slots[m].key == lf.slots[m].key
  {
    LeafHasShape(lf);
    LeafHasShape(t);
    hide LeafOk, LayoutOf;
  }

  lemma DeletedDrops(lf: Leaf, t: Leaf, i: nat, p: nat)
    requires Deleted(lf, t, i, p) && i < |LayoutOf(lf).lists| && |LayoutOf(lf).lists[i]| <= 1
    ensures var ls := LayoutOf(lf).lists;
            && LayoutOf(t).lists == RemoveAt(ls, i)
            && |t.slots| == |lf.slots| == MAX_SLOTS
            && forall m | 0 <= m < MAX_SLOTS :: t.slots[m].key == lf.slots[if i <= m < |ls| - 1 then m + 1 else m].key
  {
    LeafHasShape(lf);
    LeafHasShape(t);
    hide LeafOk, LayoutOf;
  }

  /** t is lf after the first r of key i, its p-th recId, was deleted. */
  ghost predicate CutLeaf(lf: Leaf, t: Leaf, i: nat, r: RecId, p: nat) {
    && Deleted(lf, t, i, p) && LeafOk(lf) && LeafOk(t) && i < |Entries(lf)|
    && FirstAt(Entries(lf)[i].recIds, r, p) && Entries(t) == DeleteAt(Entries(lf), i, r)
  }

  /** The deleted cell was before the row in the same list. */
  lemma CutSameList(row: Row, lf: Leaf, t: Leaf, i: nat, j: nat, r: RecId, p: nat, after: seq<Entry>)
    requires CutLeaf(lf, t, i, r, p) && |lf.slots| == |t.slots| == MAX_SLOTS && PointsAt(row, lf, i, j)
    requires 1 <= j < |Entries(lf)[i].recIds| && Entries(lf)[i].recIds[j - 1] == r
    ensures PointsAt(row, t, i, j - 1) && i < |Entries(t)| && j - 1 < |Entries(t)[i].recIds|
    ensures RestAt(row.op, Entries(t), i, j - 1, after) == RestAt(row.op, Entries(lf), i, j, after)
  {
    hide LeafOk, LayoutOf, Entries, FirstAt;
    EntryCells(lf, i);
    DeletedKeeps(lf, t, i, p);
    hide Deleted;
    var es := Entries(lf);
    FirstBefore(es[i].recIds, r, p, j - 1);
    DeleteAtKeeps(es, i, r, p);
    RemoveAtIndex(LayoutOf(lf).lists[i], p);
    TailAfterCut(es[i].recIds, p, j);
    hide DeleteAt;
  }

  lemma FirstBefore(rs: seq<RecId>, r: RecId, p: nat, j: nat)
    requires FirstAt(rs, r, p) && j < |rs| && rs[j] == r
    ensures p <= j
  {
  }

  lemma TailAfterCut(rs: seq<RecId>, p: nat, j: nat)
    requires p < j <= |rs|
    ensures |RemoveAt(rs, p)| == |rs| - 1 && RemoveAt(rs, p)[j - 1..] == rs[j..]
  {
  }

  /** The deleted cell was under the key before the row's, which keeps other recIds. */
  lemma CutKeyKept(row: Row, lf: Leaf, t: Leaf, i: nat, r: RecId, p: nat, after: seq<Entry>)
    requires 1 <= i && CutLeaf(lf, t, i - 1, r, p) && |lf.slots| == |t.slots| == MAX_SLOTS && PointsAt(row, lf, i, 0)
    requires row.nextIndex == i + 1 && i < |Entries(lf)| && |Entries(lf)[i - 1].recIds| > 1
    ensures PointsAt(row, t, i, 0) && i < |Entries(t)| && 0 < |Entries(t)[i].recIds|
    ensures RestAt(row.op, Entries(t), i, 0, after) == RestAt(row.op, Entries(lf), i, 0, after)
  {
    hide LeafOk, LayoutOf, Entries, FirstAt;
    EntryCells(lf, i);
    EntryCells(lf, i - 1);
    DeletedKeeps(lf, t, i - 1, p);
    hide Deleted;
    var es := Entries(lf);
    DeleteAtKeeps(es, i - 1, r, p);
    assert Entries(t)[i..] == es[i..] && Entries(t)[i + 1..] == es[i + 1..];
    hide DeleteAt;
  }

  /** The deleted cell was the last of the key before the row's: that key is gone, and the row
      is one slot too far or on the stale last slot. */
  lemma CutKeyGone(row: Row, lf: Leaf, t: Leaf, i: nat, r: RecId, p: nat, after: seq<Entry>)
    requires 1 <= i && CutLeaf(lf, t, i - 1, r, p) && |lf.slots| == |t.slots| == MAX_SLOTS && PointsAt(row, lf, i, 0)
    requires row.nextIndex == i + 1 && i < |Entries(lf)| && |Entries(lf)[i - 1].recIds| <= 1 && row.status == BUSY
    ensures PointsAt(row, t, i - 1, 0) && i - 1 < |Entries(t)| && 0 < |Entries(t)[i - 1].recIds|
    ensures RestAt(row.op, Entries(t), i - 1, 0, after) == RestAt(row.op, Entries(lf), i, 0, after)
  {
    hide LeafOk, LayoutOf, Entries;
    EntryCells(lf, i);
    EntryCells(lf, i - 1);
    DeletedDrops(lf, t, i - 1, p);
    hide Deleted;
    var es := Entries(lf);
    OnlyOne1(es[i - 1].recIds, r, p);
    hide FirstAt;
    DeleteAtDrops(es, i - 1, r);
    RemoveAtIndex(es, i - 1);
    RemoveAtIndex(LayoutOf(lf).lists, i - 1);
    assert Entries(t)[i..] == es[i + 1..];
    hide DeleteAt, RemoveAt;
  }

  lemma OnlyOne1(rs: seq<RecId>, r: RecId, p: nat)
    requires FirstAt(rs, r, p) && |rs| <= 1
    ensures rs == [r]
  {
  }

  lemma SamePosition(level: seq<Item>, a: nat, b: nat, k: Key)
    requires LowersRise(level) && a < |level| && b < |level| && InRange(level, a, k) && InRange(level, b, k)
    ensures a == b
  {
    hide InRange, LowersRise;
    if a < b { RangesApart(level, a, b, k, k); }
    if b < a { RangesApart(level, b, a, k, k); }
  }

  /** The pairs after leaf q do not change when leaf q or one before it does. */
  lemma AfterSame(f: File, g: File, ht: seq<nat>, level: seq<Item>, c: Config, x: nat, q: nat)
    requires LeavesOk(f, ht, level, c) && x <= q < |level| && |g| == |f|
    requires forall p | 0 <= p < |f| && p != level[x].page :: g[p] == f[p]
    ensures After(g, level, q) == After(f, level, q)
    ensures x < q ==>
              && LeafAtPos(g, level, q) == LeafAtPos(f, level, q)
              && 0 <= level[q].page < |f| && g[level[q].page] == f[level[q].page]
  {
    hide LeafOk, LeafOkAt, LowersRise;
    var a, b := EntryLists(g, level)[q + 1..], EntryLists(f, level)[q + 1..];
    forall m | 0 <= m < |a| ensures a[m] == b[m] {
      assert level[q + 1 + m].page != level[x].page;
    }
    assert a == b;
  }

  lemma CutOfLeaf(f: File, ht: seq<nat>, h: nat, c: Config, k: Key, r: RecId, cut: Cut, g: File)
    requires LeavesOk(f, ht, Leaves(f, h), c) && CutFrom(f, h, k, r, cut, g)
    ensures var level := Leaves(f, h);
            && LeafAtPos(f, level, cut.q) && LeafAtPos(g, level, cut.q)
            && CutLeaf(f[level[cut.q].page].leaf, g[level[cut.q].page].leaf, cut.i, r, cut.p)
            && Entries(f[level[cut.q].page].leaf)[cut.i].key == k && InRange(level, cut.q, k)
            && |g| == |f| && forall p | 0 <= p < |f| && p != level[cut.q].page :: g[p] == f[p]
  {
    var level := Leaves(f, h);
    hide Leaves, LeavesOk;
    LeafThere(f, ht, level, c, cut.q);
    EntryInRange(f, ht, level, c, cut.q, cut.i);
    DeletedSame(f[level[cut.q].page].leaf, g[level[cut.q].page].leaf, cut.i, cut.p);
    LeafHasShape(g[level[cut.q].page].leaf);
    hide LeafOk, Deleted, InRange, Entries, DeleteAt, FirstAt;
  }

  /** Deleting the pair that the scan returned last does not change what it will return. */
  lemma ScanSurvivesDelete(row: Row, f: File, ht: seq<nat>, h: nat, c: Config, rest: seq<(Key, RecId)>, k: Key,
          r: RecId, cut: Cut, g: File)
    requires LeavesOk(f, ht, Leaves(f, h), c) && Returned(row, f, Leaves(f, h), rest, k, r)
    requires CutFrom(f, h, k, r, cut, g)
    ensures Scanning(row, g, Leaves(f, h), rest)
  {
    if row.status != OVER {
      var level := Leaves(f, h);
      var q, i, j :| CursorAt(row, f, level, q, i, j, rest) && JustBefore(row, f, level, q, i, j, k, r);
      CutOfLeaf(f, ht, h, c, k, r, cut, g);
      hide Leaves, CutFrom;
      CursorSurvives(row, f, ht, level, c, rest, q, i, j, k, r, cut, g);
    }
  }

  lemma CursorSurvives(row: Row, f: File, ht: seq<nat>, level: seq<Item>, c: Config, rest: seq<(Key, RecId)>,
                       q: nat, i: nat, j: nat, k: Key, r: RecId, cut: Cut, g: File)
    requires LeavesOk(f, ht, level, c) && CursorAt(row, f, level, q, i, j, rest)
    requires JustBefore(row, f, level, q, i, j, k, r)
    requires LeafAtPos(f, level, cut.q) && LeafAtPos(g, level, cut.q) && InRange(level, cut.q, k)
    requires var lf := f[level[cut.q].page].leaf;
             CutLeaf(lf, g[level[cut.q].page].leaf, cut.i, r, cut.p) && Entries(lf)[cut.i].key == k
    requires |g| == |f| && forall p | 0 <= p < |f| && p != level[cut.q].page :: g[p] == f[p]
    ensures exists i', j' :: CursorAt(row, g, level, q, i', j', rest)
  {
    hide LeafOk, LeafOkAt, Placed, Deleted, DeleteAt, FirstAt, PointsAt, RestAt, After, InRange, CutLeaf;
    LeafThere(f, ht, level, c, q);
    if 1 <= q && InRange(level, q - 1, k) {
      SamePosition(level, cut.q, q - 1, k);
      AfterSame(f, g, ht, level, c, cut.q, q);
      assert CursorAt(row, g, level, q, i, j, rest);
    } else {
      EntryInRange(f, ht, level, c, q, if j >= 1 then i else i - 1);
      SamePosition(level, cut.q, q, k);
      AfterSame(f, g, ht, level, c, cut.q, q);
      var lf, t := f[level[q].page].leaf, g[level[q].page].leaf;
      var i', j' := LeafSurvives(row, lf, t, i, j, k, r, cut.i, cut.p, After(f, level, q));
      assert CursorAt(row, g, level, q, i', j', rest);
    }
  }

  lemma LeafSurvives(row: Row, lf: Leaf, t: Leaf, i: nat, j: nat, k: Key, r: RecId, ci: nat, p: nat, after: seq<Entry>)
      returns (i': nat, j': nat)
    requires CutLeaf(lf, t, ci, r, p) && |lf.slots| == |t.slots| == MAX_SLOTS && PointsAt(row, lf, i, j)
    requires Sorted(Entries(lf)) && Entries(lf)[ci].key == k && i < |Entries(lf)| && j < |Entries(lf)[i].recIds|
    requires var es := Entries(lf);
             || (1 <= j && es[i].key == k && es[i].recIds[j - 1] == r)
             || (1 <= i && j == 0 && es[i - 1].key == k && row.nextIndex == i + 1 && row.status == BUSY)
    ensures PointsAt(row, t, i', j') && i' < |Entries(t)| && j' < |Entries(t)[i'].recIds|
    ensures RestAt(row.op, Entries(t), i', j', after) == RestAt(row.op, Entries(lf), i, j, after)
  {
    hide LeafOk, Deleted, DeleteAt, FirstAt, PointsAt, RestAt;
    var at := if j >= 1 then i else i - 1;
    assert ci == at;
    hide Entries, CutLeaf, Sorted;
    if j >= 1 {
      CutSameList(row, lf, t, i, j, r, p, after);
      i', j' := i, j - 1;
    } else if |Entries(lf)[i - 1].recIds| > 1 {
      CutKeyKept(row, lf, t, i, r, p, after);
      i', j' := i, 0;
    } else {
      CutKeyGone(row, lf, t, i, r, p, after);
      i', j' := i - 1, 0;
    }
  }
}
