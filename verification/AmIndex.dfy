/** The index: am.c, amfns.c and amsearch.c over a paged file.  The file is the sequence of
    its page contents; a page is fixed by loading it into a buffer and released by writing
    the buffer's value back.  Page numbers are handed out one after the other, which is what
    PF_AllocPage does for a file with no free pages. */
module AmIndex {
  import opened AmEntries
  import opened AmLeafPage
  import opened AmLeafSteps
  import opened AmLeafBuf
  import opened AmHalves
  import opened AmNode
  import opened AmTree
  import opened AmSplit
  import opened AmLeaves
  import opened AmPaths
  import opened AmClimb
  import opened AmDescend
  import opened AmUpdate
  import PfPool

  const AM_MAXSTACK := 50
  const AME_OK := 0
  const AME_INVALIDATTRLENGTH := -1
  const AME_NOTFOUND := -2
  const AME_PF := -3
  const AME_INVALID_OP_TO_SCAN := -6
  const AME_INVALIDATTRTYPE := -9
  const AME_FD := -10
  const AME_INVALIDVALUE := -11

  /** A char* argument: NULL, or a key. */
  datatype Value = Null | Of(key: Key)

  function ParamError(fileDesc: int, attrType: char, value: Value): int {
    if attrType != 'c' && attrType != 'f' && attrType != 'i' then AME_INVALIDATTRTYPE
    else if value.Null? then AME_INVALIDVALUE
    else if fileDesc < 0 then AME_FD
    else AME_OK
  }

  /** The parameters AM_CreateIndex takes: attribute length 1 to 255 for strings, 4 otherwise. */
  function CreateError(attrType: char, attrLength: int): int {
    if attrType != 'c' && attrType != 'f' && attrType != 'i' then AME_INVALIDATTRTYPE
    else if attrLength < 1 || attrLength > 255 || (attrLength != 4 && attrType != 'c') then AME_INVALIDATTRLENGTH
    else AME_OK
  }

  class Index {
    var pages: File
    var stack: seq<Frame>
    var leftPageNum: int
    ghost const c: Config
    ghost var ht: seq<nat>
    ghost var h: nat

    ghost predicate Valid()
      reads this
    {
      TreeOk(pages, ht, h, c) && LeftOk(pages, h)
    }

    /** What the index holds. */
    ghost function Content(): seq<Entry>
      reads this
    {
      Contents(pages, Leaves(pages, h))
    }

    /** AM_CreateIndex once its parameters have been checked. */
    constructor Create(attrLength: int)
      requires 1 <= attrLength <= 255
      ensures Valid() && Content() == [] && stack == [] && |pages| == 1
      ensures c == Config(attrLength, MaxKeys(attrLength)) && RoomyFile(pages, h)
    {
      var maxKeys := MaxKeys(attrLength);
      var header := LeafHeader(AM_NULL_PAGE, PF_PAGE_SIZE, AM_SL, AM_NULL, 0, attrLength, 0, maxKeys);
      var pageBuf := new LeafBuf.Temporary(header);
      pages, stack, leftPageNum := [LeafPage(pageBuf.Value())], [], 0;
      c, ht, h := Config(attrLength, maxKeys), [0], 0;
      new;
      MaxKeysOk(attrLength);
      FreshTreeOk(pages[0].leaf, c);
    }

    /** PF_AllocPage on a file with no free pages; what the new page holds is arbitrary. */
    method AllocPage() returns (pageNum: int)
      modifies this`pages
      ensures pageNum == |old(pages)| && |pages| == pageNum + 1 && pages[..pageNum] == old(pages)
    {
      var anything: Page := *;
      pageNum := |pages|;
      pages := pages + [anything];
    }

    method PushStack(pageNum: int, offset: int)
      requires |stack| < AM_MAXSTACK
      modifies this`stack
      ensures stack == old(stack) + [Frame(pageNum, offset)]
    {
      stack := stack + [Frame(pageNum, offset)];
    }

    /** AM_Search: descends to the leaf that holds value or would hold it, leaving on the
        stack, on top of what was there, the path AM_AddtoParent needs. */
    method Search(value: Key)
        returns (found: bool, pageNum: int, pageBuf: LeafBuf, index: int, ghost q: nat, ghost pos: seq<nat>)
      requires Valid() && |stack| + h <= AM_MAXSTACK
      modifies this`stack
      ensures |old(stack)| + h == |stack| && old(stack) <= stack
      ensures PathOk(pages, stack[|old(stack)|..], pos) && |pos| == h + 1 && pos[h] == q
      ensures q < |Leaves(pages, h)| && Leaves(pages, h)[q].page == pageNum && InRange(Leaves(pages, h), q, value)
      ensures IsLeaf(pages, pageNum) && LeafOk(pages[pageNum].leaf)
      ensures fresh(pageBuf) && fresh(pageBuf.slots) && fresh(pageBuf.cells) && pageBuf.Shape()
      ensures pageBuf.Value() == pages[pageNum].leaf
      ensures 1 <= index && IsPlace(Entries(pages[pageNum].leaf), value, found, index - 1)
      ensures found <==> value in AsMap(Content())
    {
      hide LeafOk, Down, PathOk, LeavesOk, UpperOk, InRange, LeftOk, Leaves, Contents, AsMap, Below;
      ghost var base, f := stack, pages;
      ghost var n: nat := 0;
      pageNum, q, pos := AM_ROOT, 0, [0];
      SearchStart(f, ht, h, c, value);
      assert stack[|base|..] == [];
      while !pages[pageNum].LeafPage?
        invariant n <= h && |stack| == |base| + n && base <= stack
        invariant 0 <= pageNum < |f|
        invariant SearchAt(f, h, n, q, pageNum, value)
        invariant PathOk(f, stack[|base|..], pos) && |pos| == n + 1 && pos[n] == q
        invariant n < h ==> f[pageNum].IntPage?
        invariant n == h ==> f[pageNum].LeafPage?
        decreases h - n
      {
        SearchNode(f, ht, h, c, n, q, pageNum);
        var nodeBuf := new NodeBuf.Load(pages[pageNum].node);
        assert nodeBuf.Value().pairs == f[pageNum].node.pairs;
        var nextPage, indexPtr := nodeBuf.BinSearch(value);
        ghost var frames := stack[|base|..];
        PushStack(pageNum, indexPtr);
        assert stack[|base|..] == frames + [Frame(pageNum, indexPtr)];
        ghost var x := SearchStep(f, ht, h, c, n, q, pageNum, value, indexPtr, nextPage);
        PathExtend(f, frames, pos, Frame(pageNum, indexPtr), x);
        pageNum, q, pos, n := nextPage, x, pos + [x], n + 1;
      }
      LeafFound(f, ht, h, c, q, pageNum, value);
      found, pageBuf, index := SearchAtLeaf(value, pageNum, q);
    }

    /** The end of AM_Search, on the leaf it has come to. */
    method SearchAtLeaf(value: Key, pageNum: int, ghost q: nat) returns (found: bool, pageBuf: LeafBuf, index: int)
      requires Valid() && SearchAt(pages, h, h, q, pageNum, value)
      ensures IsLeaf(pages, pageNum) && LeafOk(pages[pageNum].leaf)
      ensures fresh(pageBuf) && fresh(pageBuf.slots) && fresh(pageBuf.cells) && pageBuf.Shape()
      ensures pageBuf.Value() == pages[pageNum].leaf
      ensures 1 <= index && IsPlace(Entries(pages[pageNum].leaf), value, found, index - 1)
      ensures found <==> value in AsMap(Content())
    {
      hide LeafOk, Down, LeavesOk, UpperOk, InRange, LeftOk, Leaves, Contents, AsMap;
      ghost var f := pages;
      LeafFound(f, ht, h, c, q, pageNum, value);
      pageBuf := new LeafBuf.Load(pages[pageNum].leaf);
      ghost var lf := pageBuf.Value();
      LeafKeysRise(lf);
      found, index := pageBuf.SearchLeaf(value);
      PlaceBySlots(lf, value, found, index - 1);
      LeafEntriesAre(f, pageNum);
      LookupHere(f, ht, h, c, q, value, found, index - 1, LeafEntries(f, pageNum));
    }

    /** AM_AddtoParent: pageNum, with keys from value on, is added to the node on top of the
        stack; a full node is split and its new page added one level up, and so on. */
    method AddtoParent(pageNum: int, value: Key, ghost base: seq<Frame>, ghost frames: seq<Frame>, ghost pos: seq<nat>)
      requires stack == base + frames && Climb(pages, ht, h, c, frames, pos, value, pageNum)
      modifies this`pages, this`stack, this`ht, this`h
      ensures Climbed(old(pages), old(ht), pages, ht, h, c, old(ClimbLeaves(pages, h, frames, pos, value, pageNum)))
      ensures |pages| <= |old(pages)| + |frames| + 1
      decreases |frames|
    {
      hide Climb, Climbed, ClimbLeaves, SplitNode;
      ghost var f, d := pages, |frames|;
      ClimbTop(f, ht, h, c, frames, pos, value, pageNum);
      assert stack[|stack| - 1] == frames[d - 1];
      var pageNumber, offset := stack[|stack| - 1].pageNumber, stack[|stack| - 1].offset;
      stack := stack[..|stack| - 1];
      assert stack == base + frames[..d - 1];
      var pageBuf := new NodeBuf.Load(pages[pageNumber].node);
      assert pageBuf.Value() == f[pageNumber].node;

      if pageBuf.hdr.numKeys < pageBuf.hdr.maxKeys {
        pageBuf.AddtoIntPage(value, pageNum, offset);
        pages := pages[pageNumber := IntPage(pageBuf.Value())];
        StepTakes(f, ht, h, c, frames, pos, value, pageNum, pages);
      } else if pageNumber == AM_ROOT {
        SplitRootNode(pageBuf, value, pageNum, offset);
        StepRoot(f, ht, h, c, frames, pos, value, pageNum, pages);
        ht, h := ht[0 := h + 1] + [h, h], h + 1;
      } else {
        var key, pageNum1 := SplitLowerNode(pageBuf, pageNumber, value, pageNum, offset);
        ghost var f1, ht0, ht1 := pages, ht, ht + [h - d + 1];
        StepUp(f, ht, h, c, frames, pos, value, pageNum, key, f1);
        ht := ht1;
        AddtoParent(pageNum1, key, base, frames[..d - 1], pos[..d]);
        ClimbTrans(f, ht0, f1, ht1, pages, ht, h, c, ClimbLeaves(f1, old(h), frames[..d - 1], pos[..d], key, pageNum1));
      }
    }

    /** The halves of a full node with one more child, in two new buffers. */
    method HalveNode(pageBuf: NodeBuf, value: Key, pageNum: int, offset: int)
        returns (tempPage: NodeBuf, pageBuf1: NodeBuf, key: Key)
      requires pageBuf.Shape() && 0 <= offset <= pageBuf.hdr.maxKeys
      requires pageBuf.hdr.numKeys == pageBuf.hdr.maxKeys >= 2 && pageBuf.hdr.maxKeys % 2 == 0
      ensures fresh(tempPage) && fresh(tempPage.pairs) && tempPage.Shape()
      ensures fresh(pageBuf1) && fresh(pageBuf1.pairs) && pageBuf1.Shape()
      ensures SplitNode(pageBuf.Value(), offset, value, pageNum) == Halves(tempPage.Value(), key, pageBuf1.Value())
    {
      tempPage := new NodeBuf.Temporary(pageBuf.hdr.maxKeys, pageBuf.hdr.attrLength);
      pageBuf1 := new NodeBuf.Temporary(pageBuf.hdr.maxKeys, pageBuf.hdr.attrLength);
      key := SplitIntNode(pageBuf, tempPage, pageBuf1, value, pageNum, offset);
    }

    /** AM_AddtoParent's split of a full root, which stays on page 0. */
    method SplitRootNode(pageBuf: NodeBuf, value: Key, pageNum: int, offset: int)
      requires IsNode(pages, AM_ROOT) && pageBuf.Shape() && pageBuf.Value() == pages[AM_ROOT].node
      requires pageBuf.hdr.numKeys == pageBuf.hdr.maxKeys >= 2 && pageBuf.hdr.maxKeys % 2 == 0
      requires 0 <= offset <= pageBuf.hdr.maxKeys
      modifies this`pages, pageBuf, pageBuf.pairs
      ensures var f, n := old(pages), old(pages)[AM_ROOT].node;
              var s := SplitNode(n, offset, value, pageNum);
              var root := Node(n.maxKeys, n.attrLength, |f| + 1, [Pair(s.key, |f|)]);
              pages == f[0 := IntPage(root)] + [IntPage(s.right), IntPage(s.left)]
    {
      hide SplitNode;
      var pageNum1 := AllocPage();
      var tempPage, pageBuf1, key := HalveNode(pageBuf, value, pageNum, offset);
      ghost var left, right := tempPage.Value(), pageBuf1.Value();
      var pageNum2 := AllocPage();
      pageBuf.FillRootPage(pageNum2, pageNum1, key, pageBuf.hdr.attrLength, pageBuf.hdr.maxKeys);
      pages := pages[AM_ROOT := IntPage(pageBuf.Value())];
      pages := pages[pageNum1 := IntPage(pageBuf1.Value())];
      pages := pages[pageNum2 := IntPage(tempPage.Value())];
    }

    /** AM_AddtoParent's split of a full node below the root: the first half stays. */
    method SplitLowerNode(pageBuf: NodeBuf, pageNumber: int, value: Key, pageNum: int, offset: int)
        returns (key: Key, pageNum1: int)
      requires IsNode(pages, pageNumber) && pageBuf.Shape() && pageBuf.Value() == pages[pageNumber].node
      requires pageBuf.hdr.numKeys == pageBuf.hdr.maxKeys >= 2 && pageBuf.hdr.maxKeys % 2 == 0
      requires 0 <= offset <= pageBuf.hdr.maxKeys
      modifies this`pages
      ensures pageNum1 == |old(pages)|
      ensures var s := SplitNode(old(pages)[pageNumber].node, offset, value, pageNum);
              && key == s.key
              && pages == old(pages)[pageNumber := IntPage(s.left)] + [IntPage(s.right)]
    {
      hide SplitNode;
      pageNum1 := AllocPage();
      var tempPage, pageBuf1;
      tempPage, pageBuf1, key := HalveNode(pageBuf, value, pageNum, offset);
      pages := pages[pageNumber := IntPage(tempPage.Value())];
      pages := pages[pageNum1 := IntPage(pageBuf1.Value())];
    }

    /** AM_EmptyStack */
    method EmptyStack()
      modifies this`stack
      ensures stack == []
    {
      stack := [];
    }

    /** The check of AM_Search that the caller's attribute length is the index's. */
    method RootAttrLength() returns (attrLength: int)
      requires Valid()
      ensures attrLength == c.attrLength
    {
      RootFacts(pages, ht, h, c);
      match pages[AM_ROOT]
      case LeafPage(leaf) => attrLength := leaf.hdr.attrLength;
      case IntPage(node) => attrLength := node.attrLength;
    }

    /** AM_SplitLeaf: the leaf is split in two with the new entry in; the right half goes to a
        new page.  When the leaf is the root, the left half goes to a new page as well and page
        0 becomes a node over both; else the caller must add the new page to the parent. */
    method SplitLeaf(pageBuf: LeafBuf, pageNum: int, recId: RecId, value: Key, found: bool, index: int)
        returns (addtoparent: bool, newPage: int, key: Key, ghost left: Leaf, ghost right: Leaf)
      requires pageBuf.Shape() && LeafOk(pageBuf.Value()) && pageBuf.hdr.numKeys >= 2
      requires 1 <= pageBuf.hdr.maxKeys <= MAX_PAIRS
      requires IsLeaf(pages, pageNum) && pages[pageNum].leaf == pageBuf.Value() && 1 <= index
      requires IsPlace(Entries(pageBuf.Value()), value, found, index - 1)
      modifies this`pages, this`leftPageNum, pageBuf`hdr, pageBuf.slots, pageBuf.cells
      ensures Parted(old(pageBuf.Value()), value, recId, found, index - 1, left, right, key)
      ensures newPage == |old(pages)| && (addtoparent <==> pageNum != AM_ROOT)
      ensures pages == PartedFile(old(pages), pageNum, old(pageBuf.hdr), left, right, key)
      ensures leftPageNum == if addtoparent then old(leftPageNum) else newPage + 1
    {
      hide LeafOk, Entries, InsertAt;
      ghost var f, lf := pages, pageBuf.Value();
      var header := pageBuf.hdr;
      LeafPlace(lf, value, found, index - 1);
      newPage := AllocPage();
      var tempPage, tempPageBuf;
      tempPage, tempPageBuf, key := SplitHalves(pageBuf, recId, value, index, found);
      left, right := tempPage.Value(), tempPageBuf.Value();
      assert Parted(lf, value, recId, found, index - 1, left, right, key);
      hide Parted;
      tempPage.hdr := tempPage.hdr.(nextLeafPage := newPage);
      pageBuf.CopyFrom(tempPage);
      pages := pages[newPage := LeafPage(tempPageBuf.Value())];
      assert pages == f + [LeafPage(right)];
      addtoparent := pageNum != AM_ROOT;
      if pageNum == AM_ROOT {
        NewRoot(pageBuf, newPage, key, header.attrLength, header.maxKeys);
      } else {
        pages := pages[pageNum := LeafPage(pageBuf.Value())];
      }
    }

    /** The part of AM_SplitLeaf for a leaf that is the root: the left half moves to a page of
        its own and page 0 becomes a node over the halves. */
    method NewRoot(pageBuf: LeafBuf, newPage: int, key: Key, attrLength: int, maxKeys: int)
      requires |pages| > 0 && 1 <= maxKeys <= MAX_PAIRS
      modifies this`pages, this`leftPageNum
      ensures pages == old(pages)[AM_ROOT := IntPage(Node(maxKeys, attrLength, |old(pages)|, [Pair(key, newPage)]))]
                       + [LeafPage(pageBuf.Value())]
      ensures leftPageNum == |old(pages)|
    {
      var tempPageNum1 := AllocPage();
      leftPageNum := tempPageNum1;
      pages := pages[tempPageNum1 := LeafPage(pageBuf.Value())];
      var rootBuf := new NodeBuf.Temporary(maxKeys, attrLength);
      rootBuf.FillRootPage(tempPageNum1, newPage, key, attrLength, maxKeys);
      pages := pages[AM_ROOT := IntPage(rootBuf.Value())];
    }

    /** AM_InsertEntry: adds recId to the front of value's list; value becomes a key of the
        index if it was none.  Errors change nothing. */
    method InsertEntry(fileDesc: int, attrType: char, attrLength: int, value: Value, recId: RecId) returns (errVal: int)
      requires Valid()
      requires attrType in {'c', 'f', 'i'} && value.Of? && fileDesc >= 0 && attrLength == c.attrLength ==>
                 |stack| + h <= AM_MAXSTACK && Takes(pages, h, value.key)
      modifies this
      ensures Valid()
      ensures errVal == if attrType != 'c' && attrType != 'f' && attrType != 'i' then AME_INVALIDATTRTYPE
                        else if value == Null then AME_INVALIDVALUE
                        else if fileDesc < 0 then AME_FD
                        else if attrLength != c.attrLength then AME_INVALIDATTRLENGTH
                        else AME_OK
      ensures errVal == AME_OK ==> Content() == InsertOn(old(Content()), value.key, recId) && stack == []
      ensures errVal == AME_OK && |Lookup(AsMap(old(Content())), value.key)| < MaxRecIds(c.attrLength) ==>
                old(RoomyFile(pages, h)) ==> RoomyFile(pages, h)
      ensures errVal != AME_OK ==> pages == old(pages) && h == old(h)
      ensures errVal != AME_OK ==> stack == if errVal == AME_INVALIDATTRLENGTH then [] else old(stack)
      ensures |pages| <= |old(pages)| + old(h) + 2
    {
      errVal := ParamError(fileDesc, attrType, value);
      if errVal != AME_OK {
        return;
      }
      var rootLength := RootAttrLength();
      if rootLength != attrLength {
        EmptyStack();
        return AME_INVALIDATTRLENGTH;
      }
      InsertFound(value.key, recId);
      EmptyStack();
      return AME_OK;
    }

    /** AM_InsertEntry once its parameters have been checked. */
    method InsertFound(value: Key, recId: RecId)
      requires Valid() && |stack| + h <= AM_MAXSTACK && Takes(pages, h, value)
      modifies this
      ensures Valid()
      ensures Content() == InsertOn(old(Content()), value, recId)
      ensures old(RoomyFile(pages, h)) && |Lookup(AsMap(old(Content())), value)| < MaxRecIds(c.attrLength)
              ==> RoomyFile(pages, h)
      ensures |pages| <= |old(pages)| + old(h) + 2
    {
      hide LeafOk, TreeOk, LeftOk, RoomyFile, Roomy, Takes, InRange, IsPlace, PathOk, InsertAt, InsertOn, Contents,
           Leaves, CanTake,
           AsMap, Lookup, SameLeaf, MaxRecIds, Entries;
      ghost var f, base := pages, stack;
      var found, pageNum, pageBuf, index;
      ghost var q, pos;
      found, pageNum, pageBuf, index, q, pos := Search(value);
      ghost var frames := stack[|base|..];
      ghost var lf := pageBuf.Value();
      InsertStart(f, h, q, value, found, index - 1, lf);
      var inserted := pageBuf.InsertintoLeaf(value, recId, index, found);
      if inserted {
        pages := pages[pageNum := LeafPage(pageBuf.Value())];
        InsertDone(f, ht, h, c, q, value, recId, found, index - 1, pageBuf.Value());
        return;
      }
      InsertBySplit(pageBuf, pageNum, value, recId, found, index, base, frames, q, pos);
    }

    /** AM_InsertEntry's way when the leaf is full: split it, and climb with its new page. */
    method InsertBySplit(pageBuf: LeafBuf, pageNum: int, value: Key, recId: RecId, found: bool, index: int,
                         ghost base: seq<Frame>, ghost frames: seq<Frame>, ghost q: nat, ghost pos: seq<nat>)
      requires Valid() && stack == base + frames && |frames| == h && |pos| == h + 1 && pos[h] == q
      requires PathOk(pages, frames, pos)
      requires q < |Leaves(pages, h)| && Leaves(pages, h)[q].page == pageNum && InRange(Leaves(pages, h), q, value)
      requires pageBuf.Shape() && IsLeaf(pages, pageNum) && pages[pageNum].leaf == pageBuf.Value()
      requires LeafOk(pageBuf.Value())
      requires 1 <= index && IsPlace(Entries(pageBuf.Value()), value, found, index - 1)
      requires pageBuf.hdr.numKeys >= 2
      modifies this, pageBuf`hdr, pageBuf.slots, pageBuf.cells
      ensures Valid()
      ensures Content() == InsertOn(old(Content()), value, recId)
      ensures old(RoomyFile(pages, h)) && |Lookup(AsMap(old(Content())), value)| < MaxRecIds(c.attrLength)
              ==> RoomyFile(pages, h)
      ensures |pages| <= |old(pages)| + old(h) + 2
    {
      hide LeafOk, TreeOk, LeftOk, RoomyFile, Roomy, InRange, IsPlace, PathOk, InsertAt, InsertOn, Contents,
           Leaves, Entries,
           AsMap, Lookup, MaxRecIds, SplitOf, Parted, Climb, Climbed, ClimbLeaves;
      ghost var f := pages;
      LeafOfTree(f, ht, h, c, q);
      var addtoparent, newPage, key;
      ghost var left, right;
      addtoparent, newPage, key, left, right := SplitLeaf(pageBuf, pageNum, recId, value, found, index);
      ghost var f1 := pages;
      ghost var a := left.(hdr := left.hdr.(nextLeafPage := newPage));
      ghost var es := SplitStart(f, ht, h, c, q, value, recId, found, index - 1, left, right, key);
      if addtoparent {
        ghost var ht0, h0 := ht, h;
        StartClimb(f, ht, h, c, q, a, right, key, frames, pos, es);
        ht := ht + [0];
        AddtoParent(newPage, key, base, frames, pos);
        SplitClimbed(f, ht0, h0, c, q, value, recId, es, a, right, key, f1, pages, ht, h);
      } else {
        SplitRootLeaf(f, ht, c, value, recId, es, a, right, key, pages, ht[0 := 1] + [0, 0]);
        ht, h := ht[0 := 1] + [0, 0], 1;
      }
    }

    lemma ContentSorted()
      requires Valid()
      ensures Sorted(Content())
    {
      hide LeavesOk, Contents, Leaves;
      LeavesOfTree(pages, ht, h, c);
      ContentsSorted(pages, ht, Leaves(pages, h), c);
    }

    /** AM_DeleteEntry: takes the first recId off value's list, and value itself when its list
        is empty then.  The leaf stays in the tree even when it is empty.  A failing deletion
        changes no page, but it leaves the path of its search on the stack. */
    method DeleteEntry(fileDesc: int, attrType: char, attrLength: int, value: Value, recId: RecId)
        returns (errVal: int, ghost cut: Cut)
      requires Valid()
      requires attrType in {'c', 'f', 'i'} && value.Of? && fileDesc >= 0 && attrLength == c.attrLength ==>
                 |stack| + h <= AM_MAXSTACK
      modifies this`pages, this`stack
      ensures Valid()
      ensures errVal == if attrType != 'c' && attrType != 'f' && attrType != 'i' then AME_INVALIDATTRTYPE
                        else if value == Null then AME_INVALIDVALUE
                        else if fileDesc < 0 then AME_FD
                        else if attrLength != c.attrLength then AME_INVALIDATTRLENGTH
                        else if value.key in AsMap(old(Content())) && recId in AsMap(old(Content()))[value.key]
                        then AME_OK
                        else AME_NOTFOUND
      ensures errVal == AME_OK || errVal == AME_NOTFOUND ==>
                (errVal == AME_OK <==> Has(old(Content()), value.key, recId))
      ensures errVal == AME_OK ==> Content() == DeleteOn(old(Content()), value.key, recId) && stack == []
      ensures errVal == AME_OK ==> CutFrom(old(pages), h, value.key, recId, cut, pages)
      ensures errVal != AME_OK ==> pages == old(pages) && (errVal != AME_NOTFOUND ==> stack == old(stack))
      ensures |stack| <= |old(stack)| + h && (errVal == AME_NOTFOUND ==> |stack| == |old(stack)| + h)
      ensures old(RoomyFile(pages, h)) ==> RoomyFile(pages, h)
    {
      hide TreeOk, LeftOk, RoomyFile, DeleteOn, Contents, Leaves, Has, CutFrom, AsMap, Sorted;
      cut := Cut(0, 0, 0);
      errVal := ParamError(fileDesc, attrType, value);
      if errVal != AME_OK {
        return;
      }
      var rootLength := RootAttrLength();
      if rootLength != attrLength {
        errVal := AME_INVALIDATTRLENGTH;
        return;
      }
      ContentSorted();
      HasIs(Content(), value.key, recId);
      var deleted;
      deleted, cut := DeleteFound(value.key, recId);
      if !deleted {
        errVal := AME_NOTFOUND;
        return;
      }
      EmptyStack();
    }

    /** AM_DeleteEntry once its parameters have been checked. */
    method DeleteFound(value: Key, recId: RecId) returns (deleted: bool, ghost cut: Cut)
      requires Valid() && |stack| + h <= AM_MAXSTACK
      modifies this`pages, this`stack
      ensures Valid() && |stack| == |old(stack)| + h
      ensures deleted <==> Has(old(Content()), value, recId)
      ensures !deleted ==> pages == old(pages)
      ensures deleted ==> Content() == DeleteOn(old(Content()), value, recId)
      ensures deleted ==> CutFrom(old(pages), h, value, recId, cut, pages)
      ensures old(RoomyFile(pages, h)) ==> RoomyFile(pages, h)
    {
      hide LeafOk, TreeOk, LeftOk, RoomyFile, Roomy, InRange, IsPlace, PathOk, DeleteAt, DeleteOn, Contents,
           Leaves, SameLeaf, Has, Deleted,
           CutFrom, Entries;
      ghost var f := pages;
      cut := Cut(0, 0, 0);
      var found, pageNum, pageBuf, index;
      ghost var q, pos;
      found, pageNum, pageBuf, index, q, pos := Search(value);
      ghost var lf := pageBuf.Value();
      LeafPlace(lf, value, found, index - 1);
      HasHere(f, ht, h, c, q, value, recId, found, index - 1, lf);
      if !found {
        return false, cut;
      }
      ghost var p;
      deleted, p := pageBuf.DeleteFromLeaf(recId, index);
      if deleted {
        pages := pages[pageNum := LeafPage(pageBuf.Value())];
        cut := Cut(q, index - 1, p);
        PlaceKey(Entries(lf), value, index - 1);
        DeleteDone(f, ht, h, c, q, value, recId, index - 1, p, pageBuf.Value());
      }
    }
  }

  /** What the paged file answers to the calls of AM_CreateIndex; open is a file descriptor or an error. */
  datatype PfAnswers = PfAnswers(create: int, open: int, alloc: int, unfix: int, close: int)

  const ALL_WELL := PfAnswers(PfPool.PFE_OK, 0, PfPool.PFE_OK, PfPool.PFE_OK, PfPool.PFE_OK)

  /** AM_CreateIndex: parameter errors and errors of the paged file are reported; else there is an
      empty index. */
  method CreateIndex(attrType: char, attrLength: int, pf: PfAnswers) returns (errVal: int, index: Index?)
    ensures errVal == AME_INVALIDATTRTYPE <==> attrType != 'c' && attrType != 'f' && attrType != 'i'
    ensures errVal == AME_INVALIDATTRLENGTH <==>
              || (attrType == 'c' && !(1 <= attrLength <= 255))
              || ((attrType == 'f' || attrType == 'i') && attrLength != 4)
    ensures errVal == AME_OK || errVal == AME_PF || errVal == AME_INVALIDATTRTYPE || errVal == AME_INVALIDATTRLENGTH
    ensures errVal == AME_OK ==> pf.create == pf.alloc == pf.unfix == pf.close == PfPool.PFE_OK && pf.open >= 0
    ensures errVal == AME_PF ==> !(pf.create == pf.alloc == pf.unfix == pf.close == PfPool.PFE_OK && pf.open >= 0)
    ensures errVal == AME_OK <==> index != null
    ensures index != null ==> fresh(index) && index.Valid() && index.Content() == [] && index.stack == []
    ensures index != null ==> |index.pages| == 1 && index.c.attrLength == attrLength
    ensures index != null ==> RoomyFile(index.pages, index.h)
  {
    errVal, index := CreateError(attrType, attrLength), null;
    if errVal != AME_OK {
      return;
    }
    if pf.create != PfPool.PFE_OK {
      return AME_PF, null;
    }
    if pf.open < 0 {
      return AME_PF, null;
    }
    if pf.alloc != PfPool.PFE_OK {
      return AME_PF, null;
    }
    index := new Index.Create(attrLength);
    if pf.unfix != PfPool.PFE_OK || pf.close != PfPool.PFE_OK {
      return AME_PF, null;
    }
  }
}
