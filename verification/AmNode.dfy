/** Internal nodes of the B+ tree: a first child, then (key, child) pairs, which is the
    order in which the bytes of the page hold them.  Child i + 1 covers the keys from
    pairs[i].key on.  NodeBuf is such a page while it is fixed in a buffer. */
module AmNode {
  import opened AmEntries

  datatype Pair = Pair(key: Key, child: int)
  datatype Node = Node(maxKeys: int, attrLength: int, first: int, pairs: seq<Pair>)
  datatype IntHeader = IntHeader(numKeys: int, maxKeys: int, attrLength: int)

  const AM_SINT := 8
  /** Pairs that fit in a page of 1020 bytes with 1-byte keys: (1020 - 8 - 4) / 5. */
  const MAX_PAIRS := 201

  ghost predicate PairsRise(ps: seq<Pair>) {
    forall i, j | 0 <= i < j < |ps| :: ps[i].key < ps[j].key
  }

  function ChildAt(first: int, ps: seq<Pair>, i: nat): int
    requires i <= |ps|
  {
    if i == 0 then first else ps[i - 1].child
  }

  /** i is the number of keys of ps that are <= k. */
  ghost predicate Rank(ps: seq<Pair>, k: Key, i: nat) {
    && i <= |ps|
    && (i > 0 ==> ps[i - 1].key <= k)
    && (i < |ps| ==> k < ps[i].key)
  }

  function InsertPair(ps: seq<Pair>, i: nat, p: Pair): seq<Pair>
    requires i <= |ps|
  {
    ps[..i] + [p] + ps[i..]
  }

  class NodeBuf {
    var hdr: IntHeader
    var first: int
    const pairs: array<Pair>

    ghost predicate Shape()
      reads this
    {
      pairs.Length == MAX_PAIRS && 0 <= hdr.numKeys <= hdr.maxKeys <= MAX_PAIRS
    }

    function Value(): Node
      requires Shape()
      reads this, pairs
    {
      Node(hdr.maxKeys, hdr.attrLength, first, pairs[..hdr.numKeys])
    }

    /** A page whose content does not matter yet. */
    constructor Temporary(maxKeys: int, attrLength: int)
      requires 0 <= maxKeys <= MAX_PAIRS
      ensures Shape() && fresh(pairs)
    {
      hdr := IntHeader(0, maxKeys, attrLength);
      first := 0;
      pairs := new Pair[MAX_PAIRS];
    }

    constructor Load(n: Node)
      requires |n.pairs| <= n.maxKeys <= MAX_PAIRS
      ensures Shape() && fresh(pairs) && Value() == n
    {
      hdr := IntHeader(|n.pairs|, n.maxKeys, n.attrLength);
      first := n.first;
      pairs := new Pair[MAX_PAIRS](i => if 0 <= i < |n.pairs| then n.pairs[i] else Pair(0, 0));
      new;
      assert pairs[..|n.pairs|] == n.pairs;
    }

    /** AM_BinSearch: the child to follow for value, and how many keys are <= value. */
    method BinSearch(value: Key) returns (pageNum: int, index: int)
      requires Shape() && hdr.numKeys >= 1 && PairsRise(pairs[..hdr.numKeys])
      ensures 0 <= index && Rank(pairs[..hdr.numKeys], value, index)
      ensures pageNum == ChildAt(first, pairs[..hdr.numKeys], index)
    {
      var low, high := 1, hdr.numKeys;
      while high - low > 1
        invariant 1 <= low <= high <= hdr.numKeys
        invariant low > 1 ==> pairs[low - 2].key < value
        invariant high < hdr.numKeys ==> value < pairs[high].key
      {
        var mid := (low + high) / 2;
        var compareVal := Compare(pairs[mid - 1].key, value);
        if compareVal < 0 {
          high := mid - 1;
        } else if compareVal > 0 {
          low := mid + 1;
        } else {
          assert mid < hdr.numKeys ==> pairs[..hdr.numKeys][mid - 1].key < pairs[..hdr.numKeys][mid].key;
          return pairs[mid - 1].child, mid;
        }
      }
      if high - low == 0 {
        if Compare(pairs[low - 1].key, value) < 0 {
          return ChildIn(low - 1), low - 1;
        } else {
          return ChildIn(low), low;
        }
      }
      if Compare(pairs[low - 1].key, value) < 0 {
        return ChildIn(low - 1), low - 1;
      } else if Compare(pairs[low].key, value) < 0 {
        return ChildIn(low), low;
      } else {
        return ChildIn(low + 1), low + 1;
      }
    }

    /** The i-th child pointer of the page. */
    function ChildIn(i: int): int
      requires 0 <= i <= pairs.Length
      reads this, pairs
    {
      if i == 0 then first else pairs[i - 1].child
    }

    /** AM_AddtoIntPage: the pair (value, pageNum) goes in at offset. */
    method AddtoIntPage(value: Key, pageNum: int, offset: int)
      requires Shape() && hdr.numKeys < hdr.maxKeys && 0 <= offset <= hdr.numKeys
      modifies this`hdr, pairs
      ensures Shape()
      ensures Value() == old(Value()).(pairs := InsertPair(old(Value()).pairs, offset, Pair(value, pageNum)))
    {
      var i := hdr.numKeys;
      while i > offset
        invariant offset <= i <= hdr.numKeys && hdr == old(hdr)
        invariant forall j | 0 <= j < i || hdr.numKeys < j < MAX_PAIRS :: pairs[j] == old(pairs[j])
        invariant forall j | i < j <= hdr.numKeys :: pairs[j] == old(pairs[..])[j - 1]
      {
        pairs[i] := pairs[i - 1];
        i := i - 1;
      }
      pairs[offset] := Pair(value, pairs[offset].child);
      pairs[offset] := Pair(pairs[offset].key, pageNum);
      InsertShifted(old(pairs[..]), pairs[..], hdr.numKeys, offset, Pair(value, pageNum));
      hdr := hdr.(numKeys := hdr.numKeys + 1);
    }

    /** AM_FillRootPage: one key with two children. */
    method FillRootPage(pageNum1: int, pageNum2: int, value: Key, attrLength: int, maxKeys: int)
      requires Shape() && 1 <= maxKeys <= MAX_PAIRS
      modifies this`hdr, this`first, pairs
      ensures Shape() && Value() == Node(maxKeys, attrLength, pageNum1, [Pair(value, pageNum2)])
    {
      first := pageNum1;
      pairs[0] := Pair(value, pageNum2);
      hdr := IntHeader(1, maxKeys, attrLength);
      assert pairs[..1] == [Pair(value, pageNum2)];
    }
  }

  lemma InsertShifted(a: seq<Pair>, b: seq<Pair>, n: nat, offset: nat, p: Pair)
    requires offset <= n < |a| == |b| && b[offset] == p
    requires forall j | 0 <= j < offset :: b[j] == a[j]
    requires forall j | offset < j <= n :: b[j] == a[j - 1]
    ensures b[..n + 1] == InsertPair(a[..n], offset, p)
  {
  }

  /** bcopy of len pairs. */
  method CopyPairs(from: array<Pair>, i: int, to: array<Pair>, j: int, len: int)
    requires from != to && 0 <= len && 0 <= i && i + len <= from.Length && 0 <= j && j + len <= to.Length
    modifies to
    ensures to[j..j + len] == from[i..i + len]
    ensures to[..j] == old(to[..j]) && to[j + len..] == old(to[j + len..])
  {
    ghost var was := to[..];
    forall k | 0 <= k < len { to[j + k] := from[i + k]; }
    assert to[..j] == was[..j] && to[j + len..] == was[j + len..];
    assert to[j..j + len] == from[i..i + len];
  }

  /** The first half of AM_SplitIntNode: the pairs of page with (value, pageNum) put in at
      offset, in a temporary page of one pair more. */
  method GatherPairs(page: NodeBuf, value: Key, pageNum: int, offset: int) returns (tempPage: array<Pair>)
    requires page.Shape() && page.hdr.numKeys == page.hdr.maxKeys && 0 <= offset <= page.hdr.maxKeys
    ensures fresh(tempPage) && tempPage[..] == InsertPair(page.Value().pairs, offset, Pair(value, pageNum))
  {
    var maxKeys := page.hdr.maxKeys;
    ghost var ps := page.Value().pairs;
    tempPage := new Pair[maxKeys + 1];
    CopyPairs(page.pairs, 0, tempPage, 0, offset);
    tempPage[offset] := Pair(value, pageNum);
    CopyPairs(page.pairs, offset, tempPage, offset + 1, maxKeys - offset);
    assert tempPage[offset + 1..] == ps[offset..];
    assert tempPage[..offset + 1] == ps[..offset] + [Pair(value, pageNum)];
    assert tempPage[..] == tempPage[..offset + 1] + tempPage[offset + 1..];
  }

  /** AM_SplitIntNode: the maxKeys + 1 pairs of page with (value, pageNum) put in at offset
      are dealt out: the first half to pbuf1, the middle key to the caller, the rest, under
      the middle pair's child, to pbuf2. */
  method SplitIntNode(page: NodeBuf, pbuf1: NodeBuf, pbuf2: NodeBuf, value: Key, pageNum: int, offset: int)
      returns (key: Key)
    requires page.Shape() && pbuf1.Shape() && pbuf2.Shape()
    requires page != pbuf1 && page != pbuf2 && pbuf1 != pbuf2
    requires page.pairs != pbuf1.pairs && page.pairs != pbuf2.pairs && pbuf1.pairs != pbuf2.pairs
    requires page.hdr.numKeys == page.hdr.maxKeys && page.hdr.maxKeys % 2 == 0 && 0 <= offset <= page.hdr.maxKeys
    modifies pbuf1`hdr, pbuf1`first, pbuf1.pairs, pbuf2`hdr, pbuf2`first, pbuf2.pairs
    ensures pbuf1.Shape() && pbuf2.Shape()
    ensures var n := page.Value();
            var all, h := InsertPair(n.pairs, offset, Pair(value, pageNum)), n.maxKeys / 2;
            && |all| == 2 * h + 1
            && pbuf1.Value() == n.(pairs := all[..h])
            && key == all[h].key
            && pbuf2.Value() == Node(n.maxKeys, n.attrLength, all[h].child, all[h + 1..])
  {
    var maxKeys := page.hdr.maxKeys;
    var tempPage := GatherPairs(page, value, pageNum, offset);
    ghost var all := tempPage[..];
    var length1 := maxKeys / 2;
    FillHalf(pbuf1, page.first, tempPage, 0, IntHeader(length1, maxKeys, page.hdr.attrLength));
    key := tempPage[length1].key;
    FillHalf(pbuf2, tempPage[length1].child, tempPage, length1 + 1, IntHeader(length1, maxKeys, page.hdr.attrLength));
  }

  method FillHalf(pbuf: NodeBuf, first: int, tempPage: array<Pair>, i: int, h: IntHeader)
    requires pbuf.Shape() && tempPage != pbuf.pairs
    requires 0 <= h.numKeys <= h.maxKeys <= MAX_PAIRS && 0 <= i && i + h.numKeys <= tempPage.Length
    modifies pbuf`hdr, pbuf`first, pbuf.pairs
    ensures pbuf.Shape() && pbuf.Value() == Node(h.maxKeys, h.attrLength, first, tempPage[i..i + h.numKeys])
  {
    pbuf.first := first;
    CopyPairs(tempPage, i, pbuf.pairs, 0, h.numKeys);
    pbuf.hdr := h;
    assert pbuf.pairs[..h.numKeys] == pbuf.pairs[0..0 + h.numKeys];
  }
}
