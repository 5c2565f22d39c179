/** The pages of a bulk-loaded index (blinternal.h), and the levels the index should have: every
    level fills its pages in order, and page i of a level ends at entry his[i] of the data. */
module BlPages {

  const BL_PAGE_SIZE := 4096
  const BL_MAX_LEAF_ENTRIES := (BL_PAGE_SIZE - 16) / 8
  const BL_MAX_INTERNAL_ENTRIES := (BL_PAGE_SIZE - 12) / 8
  const BL_NO_PAGE := -1

  datatype KeyVal = KeyVal(key: int, value: int)

  datatype Page =
    | HeaderPage(rootPage: int, firstLeaf: int, numLevels: int, numRecords: int, keyType: char, keyLength: int)
    | LeafPage(numKeys: int, prevPage: int, nextPage: int, keys: seq<int>, values: seq<int>)
    | InternalPage(numKeys: int, level: int, keys: seq<int>, ptrs: seq<int>)

  ghost predicate Sorted(d: seq<KeyVal>) {
    forall i, j | 0 <= i <= j < |d| :: d[i].key <= d[j].key
  }

  ghost function Min(a: int, b: int): int { if a < b then a else b }

  /** Page i of the level is page base + i of the file and ends at entry his[i]. */
  datatype Level = Level(base: nat, his: seq<nat>)

  /** The ends cut 0..n into non-empty pieces, in order. */
  ghost predicate Ends(his: seq<nat>, n: nat) {
    && |his| > 0 && his[|his| - 1] == n && his[0] > 0
    && (forall i, j | 0 <= i < j < |his| :: his[i] < his[j])
  }

  ghost function Lo(his: seq<nat>, i: nat): nat
    requires i < |his|
  {
    if i == 0 then 0 else his[i - 1]
  }

  lemma EndsBounds(his: seq<nat>, n: nat, i: nat)
    requires Ends(his, n) && i < |his|
    ensures Lo(his, i) < his[i] <= n
  {
    if i + 1 < |his| { assert his[i] < his[|his| - 1]; }
    if i > 0 { assert his[i - 1] < his[i]; }
  }

  /** How many pages of cap entries n entries fill, and where page i ends. */
  ghost function Pages(n: nat, cap: nat): nat
    requires cap > 0
  {
    (n + cap - 1) / cap
  }

  ghost function Upto(i: nat, cap: nat, n: nat): nat { Min(cap * i + cap, n) }

  lemma Times(c: nat, a: int, b: int)
    ensures a <= b ==> c * a <= c * b
    ensures c * (a + 1) == c * a + c
  {
  }

  lemma PagesCover(n: nat, cap: nat)
    requires cap > 0
    ensures cap * Pages(n, cap) - cap < n <= cap * Pages(n, cap) || (n == 0 == Pages(n, cap))
  {
    var q := (n + cap - 1) / cap;
    assert n + cap - 1 == cap * q + (n + cap - 1) % cap;
    if n == 0 { assert q == 0; }
  }

  lemma PagesWithin(n: nat, cap: nat, x: nat)
    requires cap > 0
    ensures Pages(n, cap) <= x <==> n <= cap * x
  {
    hide Pages;
    PagesCover(n, cap);
    Times(cap, Pages(n, cap), x);
    Times(cap, x + 1, Pages(n, cap));
    Times(cap, x, 0);
  }

  /** Page i is not empty, all pages but the last are full, and the last one ends at n. */
  lemma Packed(n: nat, cap: nat, i: nat)
    requires cap > 0
    ensures i < Pages(n, cap) <==> cap * i < n
    ensures i + 1 < Pages(n, cap) <==> cap * i + cap < n
    ensures i + 1 == Pages(n, cap) ==> Upto(i, cap, n) == n
  {
    hide Pages;
    PagesWithin(n, cap, i);
    PagesWithin(n, cap, i + 1);
    Times(cap, i, 0);
  }

  // ---- leaves ----

  ghost function LeafEnds(n: nat): seq<nat> {
    seq(Pages(n, BL_MAX_LEAF_ENTRIES), i requires i >= 0 => Upto(i, BL_MAX_LEAF_ENTRIES, n))
  }

  lemma LeafEndAt(n: nat, i: nat)
    requires i < |LeafEnds(n)|
    ensures LeafEnds(n)[i] == Upto(i, BL_MAX_LEAF_ENTRIES, n) > BL_MAX_LEAF_ENTRIES * i
    ensures i + 1 < |LeafEnds(n)| ==> LeafEnds(n)[i] == BL_MAX_LEAF_ENTRIES * i + BL_MAX_LEAF_ENTRIES < n
    ensures i + 1 == |LeafEnds(n)| ==> LeafEnds(n)[i] == n
  {
    hide Pages;
    Packed(n, BL_MAX_LEAF_ENTRIES, i);
  }

  lemma LeafLo(n: nat, i: nat)
    requires i < |LeafEnds(n)|
    ensures Lo(LeafEnds(n), i) == BL_MAX_LEAF_ENTRIES * i
  {
    if i > 0 { LeafEndAt(n, i - 1); }
  }

  lemma LeafEndsOk(n: nat)
    requires n > 0
    ensures Ends(LeafEnds(n), n)
  {
    hide Pages, Upto;
    var his := LeafEnds(n);
    assert |his| > 0 by { Packed(n, BL_MAX_LEAF_ENTRIES, 0); }
    hide LeafEnds;
    LeafEndAt(n, 0);
    LeafEndAt(n, |his| - 1);
    forall i, j | 0 <= i < j < |his| ensures his[i] < his[j] {
      LeafEndAt(n, i);
      LeafEndAt(n, j);
    }
  }

  ghost function PrevOf(lv: Level, i: nat): int { if i == 0 then BL_NO_PAGE else lv.base + i - 1 }

  ghost function NextOf(lv: Level, i: nat): int { if i + 1 < |lv.his| then lv.base + i + 1 else BL_NO_PAGE }

  /** A leaf with entries lo..hi of the data. */
  ghost predicate LeafHolds(pg: Page, d: seq<KeyVal>, lo: nat, hi: nat) {
    && pg.LeafPage? && lo < hi <= |d| && pg.numKeys == hi - lo <= BL_MAX_LEAF_ENTRIES
    && pg.numKeys <= |pg.keys| && pg.numKeys <= |pg.values|
    && (forall x | 0 <= x < pg.numKeys :: pg.keys[x] == d[lo + x].key && pg.values[x] == d[lo + x].value)
  }

  ghost predicate LeafOk(pages: seq<Page>, lv: Level, i: nat, d: seq<KeyVal>) {
    && i < |lv.his| && lv.base + i < |pages|
    && var pg := pages[lv.base + i];
    && LeafHolds(pg, d, Lo(lv.his, i), lv.his[i])
    && pg.prevPage == PrevOf(lv, i) && pg.nextPage == NextOf(lv, i)
  }

  ghost predicate LeavesOk(pages: seq<Page>, lv: Level, d: seq<KeyVal>) {
    && 1 <= lv.base && lv.base + |lv.his| <= |pages| && lv.his == LeafEnds(|d|)
    && forall i | 0 <= i < |lv.his| :: LeafOk(pages, lv, i, d)
  }

  // ---- nodes ----

  ghost function NodeLo(i: nat): nat { BL_MAX_INTERNAL_ENTRIES * i }

  ghost function NodeHi(i: nat, n: nat): nat { Upto(i, BL_MAX_INTERNAL_ENTRIES, n) }

  ghost function NodeEnds(below: seq<nat>): (his: seq<nat>)
    requires |below| > 0
  {
    seq(Pages(|below|, BL_MAX_INTERNAL_ENTRIES),
        i requires i >= 0 => if NodeHi(i, |below|) > 0 then below[NodeHi(i, |below|) - 1] else 0)
  }

  /** Node i lies over pages NodeLo(i)..NodeHi(i) of the level below. */
  lemma NodeOver(below: seq<nat>, n: nat, i: nat)
    requires Ends(below, n) && i < |NodeEnds(below)|
    ensures NodeLo(i) < NodeHi(i, |below|) <= |below| && NodeHi(i, |below|) - NodeLo(i) <= BL_MAX_INTERNAL_ENTRIES
    ensures NodeEnds(below)[i] == below[NodeHi(i, |below|) - 1]
    ensures Lo(NodeEnds(below), i) == Lo(below, NodeLo(i))
    ensures i + 1 < |NodeEnds(below)| ==> NodeHi(i, |below|) == NodeLo(i + 1) < |below|
    ensures i + 1 == |NodeEnds(below)| ==> NodeHi(i, |below|) == |below|
  {
    Packed(|below|, BL_MAX_INTERNAL_ENTRIES, i);
    if i > 0 { Packed(|below|, BL_MAX_INTERNAL_ENTRIES, i - 1); }
  }

  lemma NodeEndsSize(below: seq<nat>, n: nat)
    requires Ends(below, n)
    ensures |NodeEnds(below)| == Pages(|below|, BL_MAX_INTERNAL_ENTRIES) > 0
  {
    Packed(|below|, BL_MAX_INTERNAL_ENTRIES, 0);
  }

  lemma NodeEndsRise(below: seq<nat>, n: nat, i: nat, j: nat)
    requires Ends(below, n) && i < j < |NodeEnds(below)|
    ensures NodeEnds(below)[i] < NodeEnds(below)[j]
  {
    hide NodeEnds, Upto;
    NodeOver(below, n, i);
    NodeOver(below, n, j);
    assert NodeLo(i + 1) <= NodeLo(j);
    assert below[NodeHi(i, |below|) - 1] < below[NodeHi(j, |below|) - 1];
  }

  lemma NodeEndsOk(below: seq<nat>, n: nat)
    requires Ends(below, n)
    ensures Ends(NodeEnds(below), n)
  {
    hide Pages, NodeEnds, Upto;
    var his := NodeEnds(below);
    NodeEndsSize(below, n);
    NodeOver(below, n, 0);
    EndsBounds(below, n, NodeHi(0, |below|) - 1);
    NodeOver(below, n, |his| - 1);
    forall i, j | 0 <= i < j < |his| ensures his[i] < his[j] { NodeEndsRise(below, n, i, j); }
  }

  /** A node over pages a..b of the level below: its keys are the largest keys under them. */
  ghost predicate NodeHolds(pg: Page, d: seq<KeyVal>, below: Level, a: nat, b: nat) {
    && pg.InternalPage? && a < b <= |below.his| && pg.numKeys == b - a <= BL_MAX_INTERNAL_ENTRIES
    && pg.numKeys <= |pg.keys| && pg.numKeys <= |pg.ptrs|
    && (forall x | 0 <= x < pg.numKeys ::
          && 0 < below.his[a + x] <= |d|
          && pg.keys[x] == d[below.his[a + x] - 1].key && pg.ptrs[x] == below.base + a + x)
  }

  ghost predicate NodeOk(pages: seq<Page>, lv: Level, i: nat, below: Level, nl: int, d: seq<KeyVal>) {
    && lv.base + i < |pages|
    && var pg := pages[lv.base + i];
    && NodeHolds(pg, d, below, NodeLo(i), NodeHi(i, |below.his|))
    && pg.level == nl
  }

  ghost predicate NodesOk(pages: seq<Page>, lv: Level, below: Level, nl: int, d: seq<KeyVal>) {
    && |below.his| > 1 && below.base + |below.his| <= lv.base && lv.base + |lv.his| <= |pages|
    && lv.his == NodeEnds(below.his)
    && forall i | 0 <= i < |lv.his| :: NodeOk(pages, lv, i, below, nl, d)
  }

  // ---- the index ----

  /** Packed leaves, and packed levels of nodes over them. */
  ghost predicate LevelsOk(pages: seq<Page>, levels: seq<Level>, d: seq<KeyVal>) {
    && |levels| > 0 && LeavesOk(pages, levels[0], d)
    && forall j | 1 <= j < |levels| :: NodesOk(pages, levels[j], levels[j - 1], j, d)
  }

  /** The levels end in a single root, which the header names. */
  ghost predicate IndexOk(pages: seq<Page>, levels: seq<Level>, d: seq<KeyVal>) {
    && |pages| > 0 && pages[0].HeaderPage? && pages[0].keyType == 'i' && pages[0].keyLength == 4
    && (d == [] ==> levels == [] && pages[0].rootPage == BL_NO_PAGE && pages[0].firstLeaf == BL_NO_PAGE)
    && (d != [] ==>
          && LevelsOk(pages, levels, d) && |levels[|levels| - 1].his| == 1
          && pages[0].rootPage == levels[|levels| - 1].base && pages[0].firstLeaf == levels[0].base
          && pages[0].numLevels == |levels| && pages[0].numRecords == |d|)
  }

  /** As many entries go on a page as fit after its header. */
  lemma EntriesFit()
    ensures 16 + 8 * BL_MAX_LEAF_ENTRIES <= 4096 < 16 + 8 * (BL_MAX_LEAF_ENTRIES + 1)
    ensures 12 + 8 * BL_MAX_INTERNAL_ENTRIES <= 4096 < 12 + 8 * (BL_MAX_INTERNAL_ENTRIES + 1)
  {
  }

  /** The first level of an index is a chain in both directions: every leaf that names a next one is named
      back by it, the first names none before it, and the last none after it. */
  lemma LeavesLinked(pages: seq<Page>, levels: seq<Level>, d: seq<KeyVal>, p: int)
    requires IndexOk(pages, levels, d) && d != [] && 0 <= p - levels[0].base < |levels[0].his|
    ensures 0 <= p < |pages| && pages[p].LeafPage?
    ensures var next := pages[p].nextPage;
            next != BL_NO_PAGE ==> 0 <= next < |pages| && pages[next].LeafPage? && pages[next].prevPage == p
    ensures var prev := pages[p].prevPage;
            prev != BL_NO_PAGE ==> 0 <= prev < |pages| && pages[prev].LeafPage? && pages[prev].nextPage == p
    ensures pages[p].prevPage == BL_NO_PAGE <==> p == pages[0].firstLeaf
    ensures pages[p].nextPage == BL_NO_PAGE <==> p == levels[0].base + |levels[0].his| - 1
  {
    hide LeafHolds, NodesOk, LeafEnds;
    var lv := levels[0];
    var i := p - lv.base;
    assert LeafOk(pages, lv, i, d);
    if i > 0 { assert LeafOk(pages, lv, i - 1, d); }
    if i + 1 < |lv.his| { assert LeafOk(pages, lv, i + 1, d); }
    LeafHas(pages, lv, i, d);
    if i > 0 { LeafHas(pages, lv, i - 1, d); }
    if i + 1 < |lv.his| { LeafHas(pages, lv, i + 1, d); }
  }

  lemma LeafHas(pages: seq<Page>, lv: Level, i: nat, d: seq<KeyVal>)
    requires LeafOk(pages, lv, i, d)
    ensures pages[lv.base + i].LeafPage?
  {
  }

  /** Every level partitions the data. */
  lemma {:induction false} LevelEnds(pages: seq<Page>, levels: seq<Level>, d: seq<KeyVal>, j: nat)
    requires LevelsOk(pages, levels, d) && d != [] && j < |levels|
    ensures Ends(levels[j].his, |d|)
  {
    if j == 0 {
      LeafEndsOk(|d|);
    } else {
      LevelEnds(pages, levels, d, j - 1);
      NodeEndsOk(levels[j - 1].his, |d|);
    }
  }

  // ---- the number of levels ----

  ghost function Power(b: nat, e: nat): nat { if e == 0 then 1 else b * Power(b, e - 1) }

  /** The most entries an index of h levels can hold. */
  ghost function Room(h: nat): nat
    requires h > 0
  {
    BL_MAX_LEAF_ENTRIES * Power(BL_MAX_INTERNAL_ENTRIES, h - 1)
  }

  lemma RoomIs(h: nat)
    requires h > 0
    ensures Room(1) == 510 && Room(h + 1) == 510 * Room(h)
  {
    assert Power(BL_MAX_INTERNAL_ENTRIES, h) == BL_MAX_INTERNAL_ENTRIES * Power(BL_MAX_INTERNAL_ENTRIES, h - 1);
  }

  lemma RoomStep(h: nat, x: nat)
    requires h > 0
    ensures Room(1) == BL_MAX_LEAF_ENTRIES
    ensures Room(h + 1) * x == Room(h) * (BL_MAX_INTERNAL_ENTRIES * x)
  {
    var r := Room(h);
    assert Power(BL_MAX_INTERNAL_ENTRIES, h) == BL_MAX_INTERNAL_ENTRIES * Power(BL_MAX_INTERNAL_ENTRIES, h - 1);
    assert Room(h + 1) == r * BL_MAX_INTERNAL_ENTRIES;
    assert (r * BL_MAX_INTERNAL_ENTRIES) * x == r * (BL_MAX_INTERNAL_ENTRIES * x);
  }

  /** The number of pages of a level. */
  lemma LevelSizes(pages: seq<Page>, levels: seq<Level>, d: seq<KeyVal>, j: nat)
    requires LevelsOk(pages, levels, d) && d != [] && j < |levels|
    ensures j == 0 ==> |levels[0].his| == Pages(|d|, BL_MAX_LEAF_ENTRIES)
    ensures j > 0 ==> |levels[j].his| == Pages(|levels[j - 1].his|, BL_MAX_INTERNAL_ENTRIES)
  {
    if j > 0 { assert NodesOk(pages, levels[j], levels[j - 1], j, d); }
  }

  lemma {:induction false} LevelWithin(pages: seq<Page>, levels: seq<Level>, d: seq<KeyVal>, j: nat, x: nat)
    requires LevelsOk(pages, levels, d) && d != [] && j < |levels|
    ensures |levels[j].his| <= x <==> |d| <= Room(j + 1) * x
  {
    hide Room, LevelsOk, Pages;
    if j == 0 {
      LevelSizes(pages, levels, d, 0);
      PagesWithin(|d|, BL_MAX_LEAF_ENTRIES, x);
      RoomStep(1, x);
    } else {
      LevelSizes(pages, levels, d, j);
      PagesWithin(|levels[j - 1].his|, BL_MAX_INTERNAL_ENTRIES, x);
      LevelWithin(pages, levels, d, j - 1, BL_MAX_INTERNAL_ENTRIES * x);
      RoomStep(j, x);
    }
  }

  lemma {:induction false} RoomGrows(g: nat, h: nat)
    requires 0 < g <= h
    ensures Room(g) <= Room(h)
  {
    if g < h {
      RoomGrows(g, h - 1);
      assert Room(h) == Room(h - 1) * BL_MAX_INTERNAL_ENTRIES;
    }
  }

  /** The number of levels is the least that has room for the data. */
  lemma LeastLevels(pages: seq<Page>, levels: seq<Level>, d: seq<KeyVal>, h: nat)
    requires IndexOk(pages, levels, d) && d != [] && h > 0
    ensures pages[0].numLevels <= h <==> |d| <= Room(h)
  {
    var top := |levels| - 1;
    LevelWithin(pages, levels, d, top, 1);
    if h <= top {
      LevelWithin(pages, levels, d, top - 1, 1);
      assert NodesOk(pages, levels[top], levels[top - 1], top, d);
      RoomGrows(h, top);
    } else {
      RoomGrows(top + 1, h);
    }
  }
}
