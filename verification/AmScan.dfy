/** Index scans: amscan.c for the operators ALL, EQUAL, GREATER_THAN and GREATER_THAN_EQUAL,
    and clients that delete what a scan returns. */
module AmScan {
  import opened AmEntries
  import opened AmLeafPage
  import opened AmLeafBuf
  import opened AmHalves
  import opened AmTree
  import opened AmLeaves
  import opened AmPaths
  import opened AmClimb
  import opened AmUpdate
  import opened AmIndex
  import opened AmPairs
  import opened AmCursor

  /** What AM_FindNextEntry returns: a recId, or AME_EOF. */
  datatype Next = Eof | Rec(recId: RecId)

  /** The pairs that an operator selects. */
  ghost function Wanted(op: int, es: seq<Entry>, k: Key): seq<(Key, RecId)> {
    if op == ALL then Pairs(es)
    else if op == EQUAL then ListPairs(k, Lookup(AsMap(es), k))
    else Pairs(KeysFrom(es, k, op == GREATER_THAN))
  }

  /** A row of AM_scanTable. */
  class Scan {
    var op: int
    var pageNum: int
    var index: int
    var actindex: int
    var nextpageNum: int
    var nextvalue: Key
    var nextIndex: int
    var nextRecIdPtr: int
    var status: int

    function Value(): Row
      reads this
    {
      Row(op, pageNum, index, actindex, nextpageNum, nextvalue, nextIndex, nextRecIdPtr, status)
    }

    /** The scan will return exactly rest, in this order, and then AME_EOF. */
    ghost predicate Will(idx: Index, rest: seq<(Key, RecId)>)
      reads this, idx
    {
      Scanning(Value(), idx.pages, Leaves(idx.pages, idx.h), rest)
    }

    /** As Will, and the scan has just returned (k, r). */
    ghost predicate Did(idx: Index, k: Key, r: RecId, rest: seq<(Key, RecId)>)
      reads this, idx
    {
      Returned(Value(), idx.pages, Leaves(idx.pages, idx.h), rest, k, r)
    }

    /** AM_OpenIndexScan with a NULL value: a scan of the whole index. */
    constructor OpenAll(idx: Index)
      requires idx.Valid()
      ensures Will(idx, Wanted(ALL, idx.Content(), 0))
    {
      var leftPageNum := GetLeftPageNum(idx);
      status, op, pageNum, index := FIRST, ALL, 0, 0;
      nextpageNum, nextIndex, actindex, nextvalue := leftPageNum, 1, 1, 0;
      nextRecIdPtr := idx.pages[leftPageNum].leaf.slots[0].head;
      new;
      ghost var f, level := idx.pages, Leaves(idx.pages, idx.h);
      StartOfLeaf(Value(), f, idx.ht, level, idx.c, 0);
      ContentsFromLeft(f, level);
    }

    /** A row before AM_OpenIndexScan has searched for the value. */
    constructor Prepare(operator: int)
      ensures op == operator && status == FIRST
    {
      op, pageNum, index, actindex, nextpageNum, nextvalue := operator, 0, 0, 0, AM_NULL_PAGE, 0;
      nextIndex, nextRecIdPtr, status := 0, 0, FIRST;
    }

    /** The search of AM_OpenIndexScan and its switch on the operator.  Like a failing deletion
        it leaves its search path on the stack. */
    method Open(idx: Index, value: Key) returns (errVal: int)
      requires idx.Valid() && |idx.stack| + idx.h <= AM_MAXSTACK && status == FIRST
      requires op == LESS_THAN || op == LESS_THAN_EQUAL || op == NOT_EQUAL ==> !Opens(idx.pages, idx.h, value)
      modifies this, idx`stack
      ensures |idx.stack| == |old(idx.stack)| + idx.h && op == old(op)
      ensures errVal == if !Opens(idx.pages, idx.h, value) then AME_PF
                        else if op == EQUAL || op == GREATER_THAN || op == GREATER_THAN_EQUAL then AME_OK
                        else AME_INVALID_OP_TO_SCAN
      ensures errVal == AME_OK ==> Will(idx, Wanted(op, idx.Content(), value))
    {
      hide CursorAt, LeafOk, LeavesOk, Leaves, TreeOk, LeftOk, Entries, IsPlace, InRange, Opens, PathOk, Contents,
           Wanted;
      var found, searchpageNum, pageBuf;
      ghost var q, pos;
      found, searchpageNum, pageBuf, index, q, pos := idx.Search(value);
      ghost var f, ht, c, level := idx.pages, idx.ht, idx.c, Leaves(idx.pages, idx.h);
      var header := pageBuf.hdr;
      LeavesOfTree(f, ht, idx.h, c);
      OpenFacts(f, ht, idx.h, c, q, value, found, index - 1);
      OpensIff(f, ht, idx.h, c, q, value, found, index - 1);
      pageNum := searchpageNum;
      if index > header.numKeys {
        if header.nextLeafPage != AM_NULL_PAGE {
          // The next leaf's header overwrites this one before PF_UnfixPage is told which page to
          // unfix: it is told a page that is not fixed, and fails.
          var fixed := {searchpageNum, header.nextLeafPage};
          header := idx.pages[header.nextLeafPage].leaf.hdr;
          NextNotFixed(f, ht, level, c, q);
          assert header.nextLeafPage !in fixed;
          return AME_PF;
        }
        pageNum := AM_NULL_PAGE;
      }
      if op != EQUAL && op != GREATER_THAN && op != GREATER_THAN_EQUAL {
        return AME_INVALID_OP_TO_SCAN;
      }
      Start(idx, found, pageBuf, q);
      Opened(Value(), f, ht, idx.h, c, q, value, found, index - 1);
      errVal := AME_OK;
    }

    /** The switch on the operator, for the leaf in pageBuf and the place at index. */
    method Start(idx: Index, found: bool, pageBuf: LeafBuf, ghost q: nat)
      requires op == EQUAL || op == GREATER_THAN || op == GREATER_THAN_EQUAL
      requires status == FIRST && pageBuf.Shape()
      requires var f, level := idx.pages, Leaves(idx.pages, idx.h);
               && LeafAtPos(f, level, q)
               && var lf := f[level[q].page].leaf;
                  && pageBuf.Value() == lf && lf.hdr.numKeys == |Entries(lf)| < MAX_SLOTS
                  && 1 <= index <= lf.hdr.numKeys + 1 && (found ==> index <= lf.hdr.numKeys)
                  && pageNum == (if index <= lf.hdr.numKeys then level[q].page else AM_NULL_PAGE)
                  && lf.hdr.nextLeafPage == NextPage(level, q)
                  && (q + 1 < |level| ==> LeafAtPos(f, level, q + 1) && 0 <= level[q + 1].page)
      modifies this
      ensures op == old(op) && index == old(index)
      ensures OpenRow(Value(), idx.pages, Leaves(idx.pages, idx.h), q, found, index - 1)
    {
      hide LeafOk, Leaves, Entries;
      var header := pageBuf.hdr;
      if op == EQUAL {
        if !found {
          status := OVER;
        } else {
          nextpageNum, nextIndex, actindex := pageNum, index, index;
          nextRecIdPtr := pageBuf.slots[index - 1].head;
        }
      } else if op == GREATER_THAN && found {
        if index + 1 <= header.numKeys {
          nextpageNum, nextIndex, actindex := pageNum, index + 1, index + 1;
          nextRecIdPtr := pageBuf.slots[index].head;
        } else if header.nextLeafPage != AM_NULL_PAGE {
          nextpageNum, nextIndex, actindex := header.nextLeafPage, 1, 1;
          nextRecIdPtr := idx.pages[header.nextLeafPage].leaf.slots[0].head;
        } else {
          status := OVER;
        }
      } else {
        nextpageNum, nextIndex, actindex := pageNum, index, index;
        nextRecIdPtr := pageBuf.slots[index - 1].head;
      }
    }

    /** The loop of AM_FindNextEntry past leaves with no keys. */
    method SkipEmptyLeaves(idx: Index, ghost rest: seq<(Key, RecId)>)
        returns (more: bool, ghost q: nat, ghost i: nat, ghost j: nat)
      requires idx.Valid() && status != OVER && nextpageNum != AM_NULL_PAGE && Will(idx, rest)
      modifies this
      ensures !more ==> status == OVER && rest == []
      ensures more ==> CursorAt(Value(), idx.pages, Leaves(idx.pages, idx.h), q, i, j, rest)
      ensures more ==> Entries(idx.pages[nextpageNum].leaf) != []
    {
      hide CursorAt, LeafOk, LeavesOk, Leaves, TreeOk, LeftOk, Entries;
      ghost var f, ht, c, level := idx.pages, idx.ht, idx.c, Leaves(idx.pages, idx.h);
      LeavesOfTree(f, ht, idx.h, c);
      q, i, j :| CursorAt(Value(), f, level, q, i, j, rest);
      CursorFacts(Value(), f, ht, level, c, q, i, j, rest);
      while idx.pages[nextpageNum].leaf.hdr.numKeys == 0
        invariant q < |level| && level[q].page == nextpageNum && IsLeaf(f, nextpageNum)
        invariant LeafOk(f[nextpageNum].leaf) && f[nextpageNum].leaf.hdr.numKeys == |Entries(f[nextpageNum].leaf)|
        invariant CursorAt(Value(), f, level, q, i, j, rest)
        decreases |level| - q
      {
        var nextLeafPage := idx.pages[nextpageNum].leaf.hdr.nextLeafPage;
        SkipLeaf(Value(), f, ht, level, c, q, i, j, rest);
        if nextLeafPage == AM_NULL_PAGE {
          status := OVER;
          return false, q, i, j;
        }
        nextpageNum := nextLeafPage;
        nextIndex := 1;
        actindex := 1;
        nextRecIdPtr := idx.pages[nextLeafPage].leaf.slots[0].head;
        status := FIRST;
        q, i, j := q + 1, 0, 0;
        CursorFacts(Value(), f, ht, level, c, q, i, j, rest);
      }
      more := true;
    }

    /** AM_FindNextEntry: the first of the pairs still to come is returned, and the rest come
        after it; with none left, AME_EOF. */
    method FindNextEntry(idx: Index, ghost rest: seq<(Key, RecId)>) returns (next: Next)
      requires idx.Valid() && Will(idx, rest)
      modifies this
      ensures rest == [] ==> next == Eof && Will(idx, [])
      ensures rest != [] ==> next == Rec(rest[0].1) && Did(idx, rest[0].0, rest[0].1, rest[1..]) && Will(idx, rest[1..])
    {
      hide CursorAt, SettledAt, LeafOk, LeavesOk, Leaves, TreeOk, LeftOk, Entries, JustBefore;
      if status == OVER {
        return Eof;
      }
      if nextpageNum == AM_NULL_PAGE {
        status := OVER;
        return Eof;
      }
      ghost var f, ht, c, level := idx.pages, idx.ht, idx.c, Leaves(idx.pages, idx.h);
      LeavesOfTree(f, ht, idx.h, c);
      var more;
      ghost var q, i, j;
      more, q, i, j := SkipEmptyLeaves(idx, rest);
      if !more {
        return Eof;
      }
      CursorFacts(Value(), f, ht, level, c, q, i, j, rest);
      SettleAt(Value(), f, ht, level, c, q, i, j, rest);
      CheckPrevious(idx.pages[nextpageNum].leaf.slots);
      CellHere(Value(), f, ht, level, c, q, i, j, rest);
      next := Rec(idx.pages[nextpageNum].leaf.cells[nextRecIdPtr].recId);
      Advance(idx, q, i, j, rest);
      ReturnedScans(Value(), f, level, rest[1..], rest[0].0, rest[0].1);
    }

    /** The check whether the record returned last has been deleted. */
    method CheckPrevious(slots: seq<Slot>)
      requires 1 <= nextIndex <= |slots|
      requires status != FIRST && slots[nextIndex - 1].key != nextvalue ==> nextIndex >= 2
      modifies this
      ensures Value() == CheckedRow(old(Value()), slots)
    {
      if status != FIRST {
        if slots[nextIndex - 1].key != nextvalue {
          nextIndex := nextIndex - 1;
          nextRecIdPtr := slots[nextIndex - 1].head;
        }
      } else {
        status := BUSY;
        nextvalue := slots[nextIndex - 1].key;
      }
    }

    /** The end of AM_FindNextEntry: on to the next recId, key or leaf. */
    method Advance(idx: Index, ghost q: nat, ghost i: nat, ghost j: nat, ghost rest: seq<(Key, RecId)>)
      requires idx.Valid() && LeavesOk(idx.pages, idx.ht, Leaves(idx.pages, idx.h), idx.c)
      requires SettledAt(Value(), idx.pages, Leaves(idx.pages, idx.h), q, i, j, rest)
      modifies this
      ensures rest != [] && Did(idx, rest[0].0, rest[0].1, rest[1..])
    {
      hide CursorAt, SettledAt, LeafOk, LeavesOk, Leaves, TreeOk, LeftOk, Entries, JustBefore;
      ghost var f, ht, c, level := idx.pages, idx.ht, idx.c, Leaves(idx.pages, idx.h);
      SettledFacts(Value(), f, level, q, i, j, rest);
      CellHere(Value(), f, ht, level, c, q, i, j, rest);
      ghost var row := Value();
      var page := idx.pages[nextpageNum].leaf;
      var header := page.hdr;
      nextRecIdPtr := page.cells[nextRecIdPtr].next;
      if nextRecIdPtr == 0 {
        if nextIndex + 1 <= header.numKeys {
          StepToKey(row, f, level, q, i, j, rest);
          nextIndex := nextIndex + 1;
          actindex := actindex + 1;
          nextRecIdPtr := page.slots[nextIndex - 1].head;
          nextvalue := page.slots[nextIndex - 1].key;
        } else {
          StepToLeaf(row, f, ht, level, c, q, i, j, rest);
          if header.nextLeafPage == AM_NULL_PAGE {
            status := OVER;
          } else {
            nextpageNum := header.nextLeafPage;
            nextIndex := 1;
            actindex := 1;
            page := idx.pages[nextpageNum].leaf;
            nextRecIdPtr := page.slots[0].head;
            nextvalue := page.slots[0].key;
          }
        }
      } else {
        StepInList(row, f, level, q, i, j, rest);
        CursorFacts(Value(), f, ht, level, c, q, i, j + 1, rest[1..]);
      }
      if op == EQUAL {
        if pageNum != nextpageNum || index != actindex {
          status := OVER;
        }
      }
    }
  }

  lemma CursorFacts(row: Row, f: File, ht: seq<nat>, level: seq<Item>, c: Config, q: nat, i: nat, j: nat,
          rest: seq<(Key, RecId)>)
    requires LeavesOk(f, ht, level, c) && CursorAt(row, f, level, q, i, j, rest)
    ensures q < |level| && row.nextpageNum == level[q].page && IsLeaf(f, row.nextpageNum)
    ensures row.nextpageNum != AM_NULL_PAGE
    ensures LeafOk(f[row.nextpageNum].leaf) && f[row.nextpageNum].leaf.hdr.numKeys == |Entries(f[row.nextpageNum].leaf)|
    ensures |f[row.nextpageNum].leaf.slots| == MAX_SLOTS && row.status != OVER
    ensures row.op == EQUAL ==> row.pageNum == row.nextpageNum && row.index == row.actindex
  {
    LeafThere(f, ht, level, c, q);
  }

  lemma SettledFacts(row: Row, f: File, level: seq<Item>, q: nat, i: nat, j: nat, rest: seq<(Key, RecId)>)
    requires SettledAt(row, f, level, q, i, j, rest)
    ensures q < |level| && row.nextpageNum == level[q].page && IsLeaf(f, row.nextpageNum)
    ensures row.nextpageNum != AM_NULL_PAGE
    ensures LeafOk(f[row.nextpageNum].leaf) && i < |Entries(f[row.nextpageNum].leaf)| && row.status == BUSY
    ensures row.nextIndex >= 1 && |f[row.nextpageNum].leaf.slots| == MAX_SLOTS
    ensures j < |Entries(f[row.nextpageNum].leaf)[i].recIds|
    ensures row.op == EQUAL ==> row.pageNum == row.nextpageNum && row.index == row.actindex
  {
  }

  // ---- opening ----

  /** AM_OpenIndexScan: which error it reports and when; without one the scan will return exactly
      the pairs that the operator selects. */
  method OpenIndexScan(idx: Index, fileDesc: int, attrType: char, attrLength: int, op: int, value: Value)
      returns (errVal: int, scan: Scan?)
    requires idx.Valid() && (value.Of? ==> |idx.stack| + idx.h <= AM_MAXSTACK)
    requires value.Of? && (op == LESS_THAN || op == LESS_THAN_EQUAL || op == NOT_EQUAL) ==>
               !Opens(idx.pages, idx.h, value.key)
    requires value.Null? ==> attrLength == idx.c.attrLength
    modifies idx`stack
    ensures errVal == if fileDesc < 0 then AME_FD
                      else if attrType != 'c' && attrType != 'f' && attrType != 'i' then AME_INVALIDATTRTYPE
                      else if value.Null? then AME_OK
                      else if attrLength != idx.c.attrLength then AME_INVALIDATTRLENGTH
                      else if !Opens(idx.pages, idx.h, value.key) then AME_PF
                      else if op == EQUAL || op == GREATER_THAN || op == GREATER_THAN_EQUAL then AME_OK
                      else AME_INVALID_OP_TO_SCAN
    ensures var searched := value.Of? && (errVal == AME_OK || errVal == AME_PF || errVal == AME_INVALID_OP_TO_SCAN);
            |idx.stack| == |old(idx.stack)| + if searched then idx.h else 0
    ensures errVal == AME_OK ==> scan != null && fresh(scan)
    ensures errVal == AME_OK && value.Null? ==> scan.Will(idx, Wanted(ALL, idx.Content(), 0))
    ensures errVal == AME_OK && value.Of? ==> scan.Will(idx, Wanted(op, idx.Content(), value.key))
  {
    hide CursorAt, LeafOk, LeavesOk, Leaves, TreeOk, LeftOk, Opens, Contents, Wanted, Scanning;
    if fileDesc < 0 {
      return AME_FD, null;
    }
    if attrType != 'c' && attrType != 'f' && attrType != 'i' {
      return AME_INVALIDATTRTYPE, null;
    }
    if value.Null? {
      scan := new Scan.OpenAll(idx);
      return AME_OK, scan;
    }
    var rootLength := idx.RootAttrLength();
    if rootLength != attrLength {
      return AME_INVALIDATTRLENGTH, null;
    }
    scan := new Scan.Prepare(op);
    errVal := scan.Open(idx, value.key);
  }

  /** GetLeftPageNum: the leftmost leaf is page 0 while the root is a leaf and page 2 else. */
  method GetLeftPageNum(idx: Index) returns (pageNum: int)
    requires idx.Valid()
    ensures var level := Leaves(idx.pages, idx.h);
            |level| > 0 && pageNum == level[0].page && LeafAtPos(idx.pages, level, 0)
            && LeavesOk(idx.pages, idx.ht, level, idx.c)
  {
    RootFacts(idx.pages, idx.ht, idx.h, idx.c);
    LeavesOfTree(idx.pages, idx.ht, idx.h, idx.c);
    LeafThere(idx.pages, idx.ht, Leaves(idx.pages, idx.h), idx.c, 0);
    hide LeafOk, TreeOk, Leaves, LeavesOk;
    pageNum := if idx.pages[AM_ROOT].LeafPage? then AM_ROOT else 2;
  }

  lemma ContentsFromLeft(f: File, level: seq<Item>)
    requires |level| > 0
    ensures Pairs(Contents(f, level)) == Pairs(LeafEntries(f, level[0].page)) + Pairs(After(f, level, 0))
  {
    hide LeafEntries;
    ContentsAround(f, level, 0);
    assert Before(f, level, 0) == [];
    assert Contents(f, level) == LeafEntries(f, level[0].page) + After(f, level, 0);
    PairsConcat(LeafEntries(f, level[0].page), After(f, level, 0));
  }

  /** The leaf that k belongs to has a key from k on, or is the last leaf. */
  ghost predicate Opens(f: File, h: nat, k: Key) {
    forall q | 0 <= q < |Leaves(f, h)| && InRange(Leaves(f, h), q, k) :: OpensAt(f, Leaves(f, h), q, k)
  }

  ghost predicate OpensAt(f: File, level: seq<Item>, q: nat, k: Key)
    requires q < |level|
  {
    || q + 1 == |level|
    || exists x :: 0 <= x < |LeafEntries(f, level[q].page)| && LeafEntries(f, level[q].page)[x].key >= k
  }

  /** Opens is exactly the case in which AM_OpenIndexScan does not step to the next leaf
      (amscan.c:113-114). */
  lemma OpensIff(f: File, ht: seq<nat>, h: nat, c: Config, q: nat, k: Key, found: bool, i: nat)
    requires LeavesOk(f, ht, Leaves(f, h), c) && q < |Leaves(f, h)| && InRange(Leaves(f, h), q, k)
    requires IsLeaf(f, Leaves(f, h)[q].page) && LeafOk(f[Leaves(f, h)[q].page].leaf)
    requires IsPlace(Entries(f[Leaves(f, h)[q].page].leaf), k, found, i)
    ensures var hdr := f[Leaves(f, h)[q].page].leaf.hdr;
            Opens(f, h, k) <==> !(i + 1 > hdr.numKeys && hdr.nextLeafPage != AM_NULL_PAGE)
    ensures f[Leaves(f, h)[q].page].leaf.hdr.nextLeafPage == AM_NULL_PAGE <==> q + 1 == |Leaves(f, h)|
  {
    hide LeafOk, LeavesOk, Leaves, InRange, Entries, LeafEntries, IsPlace, Sorted, NoEmptyList, LowersRise;
    var level := Leaves(f, h);
    LeafThere(f, ht, level, c, q);
    if q + 1 < |level| {
      LeafThere(f, ht, level, c, q + 1);
    }
    var es := Entries(f[level[q].page].leaf);
    PlaceBounds(es, k, found, i);
    LeavesRise(f, ht, level, c);
    forall p | 0 <= p < |level| && InRange(level, p, k) ensures p == q {
      SamePosition(level, p, q, k);
    }
    assert i < |es| ==> es[i].key >= k;
  }

  lemma LeavesRise(f: File, ht: seq<nat>, level: seq<Item>, c: Config)
    requires LeavesOk(f, ht, level, c)
    ensures LowersRise(level)
  {
  }

  lemma PlaceBounds(es: seq<Entry>, k: Key, found: bool, i: nat)
    requires IsPlace(es, k, found, i)
    ensures i <= |es| && (i < |es| ==> es[i].key >= k)
    ensures i == |es| ==> forall x | 0 <= x < |es| :: es[x].key < k
  {
    if i == |es| { AllBelowPlace(es, k, found, i); }
  }

  /** The page after the next leaf is neither of the two pages that AM_OpenIndexScan has fixed. */
  lemma NextNotFixed(f: File, ht: seq<nat>, level: seq<Item>, c: Config, q: nat)
    requires LeavesOk(f, ht, level, c) && q < |level|
    ensures var n := NextPage(level, q);
            n != AM_NULL_PAGE ==>
              && IsLeaf(f, n) && f[n].leaf.hdr.nextLeafPage != level[q].page && f[n].leaf.hdr.nextLeafPage != n
  {
    hide LeafOk, Entries, Sorted, NoEmptyList, LowersRise;
    LeafThere(f, ht, level, c, q);
    if q + 1 < |level| {
      LeafThere(f, ht, level, c, q + 1);
      LeavesDiffer(f, ht, level, c, q);
    }
  }

  lemma LeavesDiffer(f: File, ht: seq<nat>, level: seq<Item>, c: Config, q: nat)
    requires LeavesOk(f, ht, level, c) && q + 1 < |level|
    ensures 0 <= level[q].page && 0 <= level[q + 1].page
    ensures q + 2 < |level| ==> level[q + 2].page != level[q].page && level[q + 2].page != level[q + 1].page
  {
    PlacedLeaves(f, ht, level, c);
  }

  /** What Open needs to know of the leaf it found. */
  lemma OpenFacts(f: File, ht: seq<nat>, h: nat, c: Config, q: nat, k: Key, found: bool, i: nat)
    requires LeavesOk(f, ht, Leaves(f, h), c) && q < |Leaves(f, h)| && InRange(Leaves(f, h), q, k)
    requires IsLeaf(f, Leaves(f, h)[q].page) && LeafOk(f[Leaves(f, h)[q].page].leaf)
    requires IsPlace(Entries(f[Leaves(f, h)[q].page].leaf), k, found, i)
    ensures var level := Leaves(f, h);
            var lf := f[level[q].page].leaf;
            && LeafAtPos(f, level, q)
            && i <= lf.hdr.numKeys == |Entries(lf)| < MAX_SLOTS && (found ==> i < lf.hdr.numKeys)
            && lf.hdr.nextLeafPage == NextPage(level, q)
            && (q + 1 < |level| ==> LeafAtPos(f, level, q + 1) && 0 <= level[q + 1].page)
  {
    hide LeafOk, LeavesOk, Leaves, InRange, Entries, LeafEntries, NextPage, IsPlace, Sorted, NoEmptyList;
    var level := Leaves(f, h);
    LeafThere(f, ht, level, c, q);
    if q + 1 < |level| {
      LeafThere(f, ht, level, c, q + 1);
    }
    var lf := f[level[q].page].leaf;
    FewKeys(lf);
    PlaceKeyIs(Entries(lf), k, found, i);
  }

  lemma AllBelowPlace(es: seq<Entry>, k: Key, found: bool, i: nat)
    requires IsPlace(es, k, found, i) && i == |es|
    ensures forall x | 0 <= x < |es| :: es[x].key < k
  {
    forall x | 0 <= x < |es| ensures es[x].key < k {
      assert es[..i][x].key < k;
    }
  }

  /** Every key has a cell, so slots never fill the page. */
  lemma FewKeys(lf: Leaf)
    requires LeafOk(lf)
    ensures |Entries(lf)| < MAX_SLOTS
  {
    hide LeafOk, Entries, Weight, NoEmptyList, SlotBytes, FreeBytes;
    LeafSpace(lf);
    var es := Entries(lf);
    WeightAtLeast(es, RecSize(lf.hdr.attrLength));
    SlotBytesAtLeast9(|es|, RecSize(lf.hdr.attrLength) + CELL);
  }

  lemma {:induction false} SlotBytesAtLeast9(n: nat, recSize: int)
    requires recSize >= 9
    ensures SlotBytes(n, recSize) >= 9 * n
  {
    if n > 0 {
      SlotBytesAtLeast9(n - 1, recSize);
    }
  }

  /** The pairs wanted are those of the leaf from the place of k on, and those after it. */
  lemma WantedHere(op: int, f: File, ht: seq<nat>, h: nat, c: Config, q: nat, k: Key,
          found: bool, i: nat)
    requires TreeOk(f, ht, h, c) && q < |Leaves(f, h)| && InRange(Leaves(f, h), q, k)
    requires IsPlace(LeafEntries(f, Leaves(f, h)[q].page), k, found, i)
    requires op == EQUAL || op == GREATER_THAN || op == GREATER_THAN_EQUAL
    ensures var es := LeafEntries(f, Leaves(f, h)[q].page);
            var x := if op == GREATER_THAN && found then i + 1 else i;
            && x <= |es|
            && Wanted(op, Contents(f, Leaves(f, h)), k) ==
               if op == EQUAL then ListPairs(k, if found then es[i].recIds else [])
               else Pairs(es[x..]) + Pairs(After(f, Leaves(f, h), q))
  {
    hide Leaves, LeafEntries, TreeOk, LeavesOk, Before, After, Contents, InRange, AsMap, Lookup, KeysFrom, Pairs,
         ListPairs, IsPlace;
    var level := Leaves(f, h);
    var es := LeafEntries(f, level[q].page);
    PlaceKeyIs(es, k, found, i);
    LookupHere(f, ht, h, c, q, k, found, i, es);
    LeavesOfTree(f, ht, h, c);
    LeafSorted(f, ht, level, c, q);
    SidesApart(f, ht, level, c, q, k);
    ContentsAround(f, level, q);
    var strict, x := op == GREATER_THAN, if op == GREATER_THAN && found then i + 1 else i;
    KeysFromBelow(Before(f, level, q), k, strict);
    KeysFromAt(es, k, strict, found, i);
    KeysFromAbove(After(f, level, q), k, strict);
    KeysFromConcat(Before(f, level, q) + es, After(f, level, q), k, strict);
    KeysFromConcat(Before(f, level, q), es, k, strict);
    assert [] + es[x..] == es[x..];
    PairsConcat(es[x..], After(f, level, q));
  }

  /** The row that Open leaves. */
  ghost predicate OpenRow(row: Row, f: File, level: seq<Item>, q: nat, found: bool, i: nat) {
    && LeafAtPos(f, level, q)
    && var lf := f[level[q].page].leaf;
       var n := |Entries(lf)|;
       var x := if row.op == GREATER_THAN && found then i + 1 else i;
       && row.index == i + 1 && row.pageNum == (if i < n then level[q].page else AM_NULL_PAGE)
       && (row.op == EQUAL && !found ==> row.status == OVER)
       && (!(row.op == EQUAL && !found) && x < n ==>
             row.status == FIRST && row.nextpageNum == level[q].page && row.nextIndex == row.actindex == x + 1
             && row.nextRecIdPtr == lf.slots[x].head)
       && (!(row.op == EQUAL && !found) && x == n && q + 1 == |level| ==>
             row.status == OVER || row.nextpageNum == AM_NULL_PAGE)
       && (row.op == GREATER_THAN && found && x == n && q + 1 < |level| ==>
             && LeafAtPos(f, level, q + 1)
             && row.status == FIRST && row.nextpageNum == level[q + 1].page && row.nextIndex == 1
             && row.nextRecIdPtr == f[level[q + 1].page].leaf.slots[0].head)
  }

  lemma Opened(row: Row, f: File, ht: seq<nat>, h: nat, c: Config, q: nat, k: Key, found: bool,
          i: nat)
    requires TreeOk(f, ht, h, c) && Opens(f, h, k) && q < |Leaves(f, h)| && InRange(Leaves(f, h), q, k)
    requires IsLeaf(f, Leaves(f, h)[q].page) && LeafOk(f[Leaves(f, h)[q].page].leaf)
    requires IsPlace(Entries(f[Leaves(f, h)[q].page].leaf), k, found, i)
    requires row.op == EQUAL || row.op == GREATER_THAN || row.op == GREATER_THAN_EQUAL
    requires OpenRow(row, f, Leaves(f, h), q, found, i)
    ensures Scanning(row, f, Leaves(f, h), Wanted(row.op, Contents(f, Leaves(f, h)), k))
  {
    hide Leaves, LeafOk, LeavesOk, TreeOk, Entries, After, Contents, InRange, IsPlace, Wanted, Opens, NoEmptyList,
         Sorted, Pairs,
         ListPairs, LeafEntries, LayoutOf, NextPage;
    var level := Leaves(f, h);
    LeavesOfTree(f, ht, h, c);
    LeafThere(f, ht, level, c, q);
    OpenFacts(f, ht, h, c, q, k, found, i);
    OpensIff(f, ht, h, c, q, k, found, i);
    WantedHere(row.op, f, ht, h, c, q, k, found, i);
    var wanted := Wanted(row.op, Contents(f, level), k);
    var es := Entries(f[level[q].page].leaf);
    var x := if row.op == GREATER_THAN && found then i + 1 else i;
    PlaceKeyIs(es, k, found, i);
    if row.op == EQUAL && !found {
      NoPairs(k);
    } else if x < |es| {
      EntryCells(f[level[q].page].leaf, x);
      FromHere(es, x);
      assert CursorAt(row, f, level, q, x, 0, wanted);
    } else if q + 1 == |level| {
      AfterNext(f, level, q);
      NoPairs(k);
    } else {
      LeafThere(f, ht, level, c, q + 1);
      AfterNext(f, level, q);
      NoPairs(k);
      StartOfLeaf(row, f, ht, level, c, q + 1);
      assert CursorAt(row, f, level, q + 1, 0, 0, wanted);
    }
  }

  lemma PlaceKeyIs(es: seq<Entry>, k: Key, found: bool, i: nat)
    requires IsPlace(es, k, found, i)
    ensures i <= |es| && (found ==> i < |es| && es[i].key == k)
  {
  }

  lemma FromHere(es: seq<Entry>, x: nat)
    requires x < |es|
    ensures Pairs(es[x..]) == PageRest(es, x, 0) && es[x].recIds[0..] == es[x].recIds
  {
    assert es[x..] == [es[x]] + es[x + 1..];
    PairsOne(es[x], es[x + 1..]);
  }
}
